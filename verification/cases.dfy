/**
 * The input/output pairs that the provider's acceptance tests fix, and one non-contiguous mask.
 * Each case names its inputs as parameters pinned by `requires x == "..."` rather than writing
 * the literals into the conclusion: that keeps the solver from unfolding the parser on the
 * literal text, and the small lemmas below hand it each literal fact it needs.
 */
module CidrCases {

  import Decimal
  import IPv4
  import Mask
  import opened Cidr

  // The texts of the addresses and masks used below.

  lemma TenTenTenZeroText(ip: seq<bv8>)
    requires ip == [10, 10, 10, 0]
    ensures IPv4.FormatIPv4(ip) == "10.10.10.0"
  {
    assert ip[0] as int == 10 && ip[1] as int == 10 && ip[2] as int == 10 && ip[3] as int == 0;
    assert Decimal.Format(10) == "10" && Decimal.Format(0) == "0";
    assert IPv4.Fields(ip) == ["10", "10", "10", "0"];
    assert IPv4.Join(["10", "10", "10", "0"]) == "10.10.10.0";
  }

  lemma ZeroText(ip: seq<bv8>)
    requires ip == [0, 0, 0, 0]
    ensures IPv4.FormatIPv4(ip) == "0.0.0.0"
  {
    assert ip[0] as int == 0 && ip[1] as int == 0 && ip[2] as int == 0 && ip[3] as int == 0;
    assert Decimal.Format(0) == "0";
    assert IPv4.Fields(ip) == ["0", "0", "0", "0"];
    assert IPv4.Join(["0", "0", "0", "0"]) == "0.0.0.0";
  }

  lemma Mask24Text()
    ensures Mask.PrefixMask(24) == [255, 255, 255, 0]
    ensures IPv4.FormatIPv4(Mask.PrefixMask(24)) == "255.255.255.0"
  {
    var mask: seq<bv8> := [255, 255, 255, 0];
    assert Mask.PrefixMaskBytes(8, 2) == [0xff, 0];
    assert Mask.PrefixMask(24) == mask;
    assert mask[0] as int == 255 && mask[1] as int == 255 && mask[2] as int == 255 && mask[3] as int == 0;
    assert Decimal.Format(255) == "255" && Decimal.Format(0) == "0";
    assert IPv4.Fields(mask) == ["255", "255", "255", "0"];
    assert IPv4.Join(["255", "255", "255", "0"]) == "255.255.255.0";
  }

  lemma Mask32Text()
    ensures Mask.PrefixMask(32) == [255, 255, 255, 255]
    ensures IPv4.FormatIPv4(Mask.PrefixMask(32)) == "255.255.255.255"
  {
    var mask: seq<bv8> := [255, 255, 255, 255];
    assert Mask.PrefixMaskBytes(8, 1) == [0xff];
    assert Mask.PrefixMaskBytes(16, 2) == [0xff, 0xff];
    assert Mask.PrefixMaskBytes(24, 3) == [0xff, 0xff, 0xff];
    assert Mask.PrefixMask(32) == mask;
    assert mask[0] as int == 255 && mask[1] as int == 255 && mask[2] as int == 255 && mask[3] as int == 255;
    assert Decimal.Format(255) == "255";
    assert IPv4.Fields(mask) == ["255", "255", "255", "255"];
    assert IPv4.Join(["255", "255", "255", "255"]) == "255.255.255.255";
  }

  /** One field that is not an octet rejects the whole address text. */
  lemma FieldRejected(s: string, fields: seq<string>, k: nat)
    requires |fields| == 4 && s == IPv4.Join(fields)
    requires forall i :: 0 <= i < 4 ==> '.' !in fields[i]
    requires k < 4 && IPv4.ParseOctet(fields[k]).None?
    ensures IPv4.ParseIPv4(s).None?
  {
    IPv4.SplitJoin(fields);
  }

  lemma TenTenThousandZeroRejected(s: string)
    requires s == "10.10.1000.0"
    ensures IPv4.ParseIPv4(s).None?
  {
    var fields := ["10", "10", "1000", "0"];
    assert IPv4.Join(fields) == "10.10.1000.0";
    assert Decimal.Format(1000) == "1000";
    Decimal.ValueOfFormat(1000);
    FieldRejected(s, fields, 2);
  }

  lemma Mask2555Rejected(s: string)
    requires s == "255.255.2555.0"
    ensures IPv4.ParseIPv4(s).None?
  {
    var fields := ["255", "255", "2555", "0"];
    assert IPv4.Join(fields) == "255.255.2555.0";
    Decimal.ValueOfFormat(2555);
    assert Decimal.Format(2555) == "2555";
    FieldRejected(s, fields, 2);
  }

  lemma Mask2555Quoted(s: string)
    requires s == "255.255.2555.0"
    ensures Quote(s) == "\"255.255.2555.0\""
  {
    EscapePlain(s);
  }

  /** An address that its prefix mask leaves unchanged comes back with the prefix length appended. */
  lemma Accepted(subnet: string, netmask: string, ip: seq<bv8>, n: nat)
    requires IPv4.IsAddress(ip) && n <= 32
    requires IPv4.FormatIPv4(ip) == subnet && IPv4.FormatIPv4(Mask.PrefixMask(n)) == netmask
    requires Network(ip, Mask.PrefixMask(n)) == ip
    ensures ToCidr(subnet, netmask) == Ok(subnet + "/" + Decimal.Format(n))
  {
    EveryPrefixAccepted(ip, n);
  }

  lemma TenTenTenZeroNetwork(ip: seq<bv8>)
    requires ip == [10, 10, 10, 0]
    ensures Network(ip, Mask.PrefixMask(24)) == ip
  {
    Mask24Text();
  }

  lemma ZeroNetwork(ip: seq<bv8>, n: nat)
    requires ip == [0, 0, 0, 0] && n <= 32
    ensures Network(ip, Mask.PrefixMask(n)) == ip
  {
    Mask.PrefixMaskSize(n);
  }

  // The expected outputs, spelled as address, slash and length.

  lemma HappyFlowOutput(subnet: string)
    requires subnet == "10.10.10.0"
    ensures subnet + "/" + Decimal.Format(24) == "10.10.10.0/24"
  {
    assert Decimal.Format(24) == "24";
  }

  lemma ZeroAddressOutput(subnet: string)
    requires subnet == "0.0.0.0"
    ensures subnet + "/" + Decimal.Format(32) == "0.0.0.0/32"
  {
    assert Decimal.Format(32) == "32";
  }

  lemma ZeroMaskOutput(subnet: string)
    requires subnet == "0.0.0.0"
    ensures subnet + "/" + Decimal.Format(0) == "0.0.0.0/0"
  {
    assert Decimal.Format(0) == "0";
  }

  // The cases themselves.

  /** `tocidr("10.10.10.0", "255.255.255.0")` is `"10.10.10.0/24"`. */
  lemma HappyFlow(subnet: string, netmask: string)
    requires subnet == "10.10.10.0" && netmask == "255.255.255.0"
    ensures ToCidr(subnet, netmask) == Ok("10.10.10.0/24")
  {
    var ip: seq<bv8> := [10, 10, 10, 0];
    TenTenTenZeroText(ip);
    Mask24Text();
    TenTenTenZeroNetwork(ip);
    Accepted(subnet, netmask, ip, 24);
    HappyFlowOutput(subnet);
  }

  /** `tocidr("0.0.0.0", "255.255.255.255")` is `"0.0.0.0/32"`. */
  lemma ZeroAddress(subnet: string, netmask: string)
    requires subnet == "0.0.0.0" && netmask == "255.255.255.255"
    ensures ToCidr(subnet, netmask) == Ok("0.0.0.0/32")
  {
    var ip: seq<bv8> := [0, 0, 0, 0];
    ZeroText(ip);
    Mask32Text();
    ZeroNetwork(ip, 32);
    Accepted(subnet, netmask, ip, 32);
    ZeroAddressOutput(subnet);
  }

  /** `tocidr("0.0.0.0", "0.0.0.0")` is `"0.0.0.0/0"`. */
  lemma ZeroMask(subnet: string, netmask: string)
    requires subnet == "0.0.0.0" && netmask == "0.0.0.0"
    ensures ToCidr(subnet, netmask) == Ok("0.0.0.0/0")
  {
    var ip: seq<bv8> := [0, 0, 0, 0];
    ZeroText(ip);
    assert Mask.PrefixMask(0) == ip;
    ZeroNetwork(ip, 0);
    Accepted(subnet, netmask, ip, 0);
    ZeroMaskOutput(subnet);
  }

  /** `tocidr("10.10.1000.0", "255.255.255.0")` fails on argument 0: 1000 is not an octet. */
  lemma WrongIp(subnet: string, netmask: string)
    requires subnet == "10.10.1000.0" && netmask == "255.255.255.0"
    ensures ToCidr(subnet, netmask) == Err(FuncError(0, InvalidSubnetText + "10.10.1000.0"))
  {
    TenTenThousandZeroRejected(subnet);
    InvalidSubnet(subnet, netmask);
  }

  /** `tocidr("10.10.10.0", "255.255.2555.0")` fails on argument 1: 2555 is not an octet. */
  lemma WrongNetmask(subnet: string, netmask: string)
    requires subnet == "10.10.10.0" && netmask == "255.255.2555.0"
    ensures ToCidr(subnet, netmask) == Err(FuncError(1, InvalidNetmaskText + "\"255.255.2555.0\""))
  {
    var ip: seq<bv8> := [10, 10, 10, 0];
    TenTenTenZeroText(ip);
    IPv4.FormatThenParse(ip);
    Mask2555Rejected(netmask);
    Mask2555Quoted(netmask);
    InvalidNetmask(subnet, netmask);
  }

  /** `tocidr("10.10.10.0", "255.0.255.0")` fails on argument 1: the mask has ones after a zero. */
  lemma NonContiguous(subnet: string, netmask: string)
    requires subnet == "10.10.10.0" && netmask == "255.0.255.0"
    ensures ToCidr(subnet, netmask) == Err(FuncError(1, MaskShapeText))
  {
    var ip: seq<bv8> := [10, 10, 10, 0];
    var mask: seq<bv8> := [255, 0, 255, 0];
    TenTenTenZeroText(ip);
    assert mask[0] as int == 255 && mask[1] as int == 0 && mask[2] as int == 255 && mask[3] as int == 0;
    assert Decimal.Format(255) == "255" && Decimal.Format(0) == "0";
    assert IPv4.Fields(mask) == ["255", "0", "255", "0"];
    assert IPv4.Join(["255", "0", "255", "0"]) == "255.0.255.0";
    IPv4.FormatThenParse(ip);
    IPv4.FormatThenParse(mask);
    assert !Mask.AllZero(mask[1..][1..]);
    assert Mask.Size(mask) == (0, 0);
  }
}

/**
 * The `tocidr` provider function: a dotted-decimal IPv4 subnet and netmask become the
 * network in CIDR prefix notation, `a.b.c.d/n` (RFC 4632, section 3.1), or an error that
 * names the argument at fault.
 */
module Cidr {

  import opened Wrappers
  import Decimal
  import IPv4
  import Mask

  /** A function error as the host sees it: the position of the argument at fault and a message. */
  datatype FuncError = FuncError(argument: nat, text: string)

  datatype Result = Ok(value: string) | Err(error: FuncError)

  const InvalidSubnetText := "not an IPv4 address/invalid address: "
  const InvalidNetmaskText := "not an IPv4 netmask/invalid netmask: "
  /** Kept exactly as the provider spells it, closing parenthesis missing. */
  const MaskShapeText := "invalid netmask (non-contiguous or unsupported"

  // ---------------------------------------------------------------------------------------
  // Go's %q verb

  predicate NeedsEscape(c: char) {
    c == '"' || c == '\\'
  }

  /** The body of a Go string literal for `s`: quote and backslash get a backslash in front. */
  function Escape(s: string): (e: string)
    ensures |e| >= |s|
  {
    if s == [] then []
    else (if NeedsEscape(s[0]) then ['\\', s[0]] else [s[0]]) + Escape(s[1..])
  }

  /** Reads the body of a string literal back: a backslash stands for the character after it. */
  function Unescape(e: string): string
  {
    if e == [] then []
    else if e[0] == '\\' && |e| >= 2 then [e[1]] + Unescape(e[2..])
    else [e[0]] + Unescape(e[1..])
  }

  /** `fmt.Sprintf("%q", s)` for a string of printable characters. */
  function Quote(s: string): (q: string)
    ensures |q| >= 2 && q[0] == '"' && q[|q| - 1] == '"'
  {
    "\"" + Escape(s) + "\""
  }

  /** The literal Quote writes reads back as the original string. */
  lemma {:induction false} UnescapeEscape(s: string)
    ensures Unescape(Escape(s)) == s
  {
    if s != [] {
      UnescapeEscape(s[1..]);
      var head := if NeedsEscape(s[0]) then ['\\', s[0]] else [s[0]];
      assert Escape(s) == head + Escape(s[1..]);
      if NeedsEscape(s[0]) {
        assert (head + Escape(s[1..]))[2..] == Escape(s[1..]);
      } else {
        assert (head + Escape(s[1..]))[1..] == Escape(s[1..]);
      }
      assert s == [s[0]] + s[1..];
    }
  }

  /** A string without quotes or backslashes is quoted as itself between double quotes. */
  lemma {:induction false} EscapePlain(s: string)
    requires forall i :: 0 <= i < |s| ==> !NeedsEscape(s[i])
    ensures Escape(s) == s
  {
    if s != [] {
      EscapePlain(s[1..]);
      assert s == [s[0]] + s[1..];
    }
  }

  // ---------------------------------------------------------------------------------------
  // The network address

  /** Each byte of the network address is the subnet byte AND the mask byte. */
  function Network(ip: seq<bv8>, mask: seq<bv8>): (network: seq<bv8>)
    requires |ip| == |mask|
    ensures |network| == |ip|
  {
    seq(|ip|, i requires 0 <= i < |ip| => ip[i] & mask[i])
  }

  /** The loop of the provider: a fresh zeroed 4-byte buffer filled with the masked bytes. */
  method NetworkOf(ip4: seq<bv8>, mask: seq<bv8>) returns (network: array<bv8>)
    requires |ip4| == 4 && |mask| == 4
    ensures fresh(network)
    ensures network[..] == Network(ip4, mask)
  {
    network := new bv8[4](_ => 0);
    var i := 0;
    while i < 4
      invariant 0 <= i <= 4
      invariant forall k :: 0 <= k < i ==> network[k] == ip4[k] & mask[k]
    {
      network[i] := ip4[i] & mask[i];
      i := i + 1;
    }
  }

  /** Masking twice with the same mask changes nothing more, and no byte grows. */
  lemma NetworkIdempotent(ip: seq<bv8>, mask: seq<bv8>)
    requires |ip| == |mask|
    ensures Network(Network(ip, mask), mask) == Network(ip, mask)
    ensures forall i :: 0 <= i < |ip| ==> Network(ip, mask)[i] <= ip[i]
  {
    assert forall i :: 0 <= i < |ip| ==> Network(Network(ip, mask), mask)[i] == Network(ip, mask)[i];
  }

  /** Bit by bit, the network address is the subnet AND the mask. */
  lemma NetworkBits(ip: seq<bv8>, mask: seq<bv8>)
    requires |ip| == |mask|
    ensures forall j :: 0 <= j < 8 * |ip| ==>
      Mask.Bits(Network(ip, mask))[j] == (Mask.Bits(ip)[j] && Mask.Bits(mask)[j])
  {
    var network := Network(ip, mask);
    forall j | 0 <= j < 8 * |ip|
      ensures Mask.Bits(network)[j] == (Mask.Bits(ip)[j] && Mask.Bits(mask)[j])
    {
      Mask.BitsAt(network, j);
      Mask.BitsAt(ip, j);
      Mask.BitsAt(mask, j);
      Mask.ByteBitsAnd(ip[j / 8], mask[j / 8]);
    }
  }

  /**
   * Under a mask of prefix length `n`, the network address keeps the first `n` bits of the
   * subnet and clears every host bit.
   */
  lemma NetworkKeepsPrefix(ip: seq<bv8>, mask: seq<bv8>, n: nat)
    requires |ip| == 4 && |mask| == 4 && n <= 32
    requires Mask.Bits(mask) == Mask.PrefixBits(n, 32)
    ensures Mask.Bits(Network(ip, mask)) == Mask.Bits(ip)[..n] + Mask.PrefixBits(0, 32 - n)
  {
    NetworkBits(ip, mask);
  }

  // ---------------------------------------------------------------------------------------
  // The conversion

  /** `tocidr(subnet, netmask)`: the steps of the provider's Run, as one value. */
  function ToCidr(subnet: string, netmask: string): Result
  {
    match IPv4.ParseIPv4(subnet)
    case None => Err(FuncError(0, InvalidSubnetText + subnet))
    case Some(ip4) =>
      match IPv4.ParseIPv4(netmask)
      case None => Err(FuncError(1, InvalidNetmaskText + Quote(netmask)))
      case Some(mask) =>
        var (ones, bits) := Mask.Size(mask);
        if bits != 32 || ones < 0 then Err(FuncError(1, MaskShapeText))
        else Ok(IPv4.FormatIPv4(Network(ip4, mask)) + "/" + Decimal.Format(ones))
  }

  /** A subnet that is not an IPv4 address is reported against argument 0, whatever the netmask. */
  lemma InvalidSubnet(subnet: string, netmask: string)
    requires IPv4.ParseIPv4(subnet).None?
    ensures ToCidr(subnet, netmask) == Err(FuncError(0, InvalidSubnetText + subnet))
  {
  }

  /** With a valid subnet, a netmask that is not an IPv4 address is reported against argument 1. */
  lemma InvalidNetmask(subnet: string, netmask: string)
    requires IPv4.ParseIPv4(subnet).Some? && IPv4.ParseIPv4(netmask).None?
    ensures ToCidr(subnet, netmask) == Err(FuncError(1, InvalidNetmaskText + Quote(netmask)))
  {
  }

  /** A netmask with no prefix length, ones after a zero, is reported against argument 1. */
  lemma NonContiguousNetmask(subnet: string, netmask: string)
    requires IPv4.ParseIPv4(subnet).Some? && IPv4.ParseIPv4(netmask).Some?
    requires forall n: nat :: n <= 32 ==> Mask.Bits(IPv4.ParseIPv4(netmask).value) != Mask.PrefixBits(n, 32)
    ensures ToCidr(subnet, netmask) == Err(FuncError(1, MaskShapeText))
  {
    var mask := IPv4.ParseIPv4(netmask).value;
    if Mask.Size(mask).1 == 32 {
      Mask.SizeAccepted(mask);
      assert false;
    }
  }

  /**
   * With both addresses valid and a netmask of `n` leading ones, the answer is the masked
   * subnet followed by `/n`; and that answer comes only from a netmask of prefix length `n`.
   */
  lemma ContiguousNetmask(subnet: string, netmask: string, n: nat)
    requires IPv4.ParseIPv4(subnet).Some? && IPv4.ParseIPv4(netmask).Some? && n <= 32
    ensures var ip4, mask := IPv4.ParseIPv4(subnet).value, IPv4.ParseIPv4(netmask).value;
      ToCidr(subnet, netmask) == Ok(IPv4.FormatIPv4(Network(ip4, mask)) + "/" + Decimal.Format(n))
      <==> Mask.Bits(mask) == Mask.PrefixBits(n, 32)
  {
    var ip4, mask := IPv4.ParseIPv4(subnet).value, IPv4.ParseIPv4(netmask).value;
    Mask.SizeOfContiguous(mask, n);
    var r := ToCidr(subnet, netmask);
    if Mask.Size(mask).1 == 32 {
      Mask.SizeAccepted(mask);
      var ones := Mask.Size(mask).0;
      if r == Ok(IPv4.FormatIPv4(Network(ip4, mask)) + "/" + Decimal.Format(n)) {
        var tail := IPv4.FormatIPv4(Network(ip4, mask)) + "/";
        assert tail + Decimal.Format(ones) == tail + Decimal.Format(n);
        assert Decimal.Format(ones) == (tail + Decimal.Format(ones))[|tail|..];
        assert Decimal.Format(n) == (tail + Decimal.Format(n))[|tail|..];
        Decimal.ValueOfFormat(ones);
        Decimal.ValueOfFormat(n);
      }
    }
  }

  /**
   * A successful answer is well-formed CIDR: a dotted-decimal address that reads back as the
   * masked subnet, a slash, and the canonical decimal prefix length of the netmask, at most 32.
   */
  lemma SuccessShape(subnet: string, netmask: string)
    requires ToCidr(subnet, netmask).Ok?
    ensures IPv4.ParseIPv4(subnet).Some? && IPv4.ParseIPv4(netmask).Some?
    ensures var out := ToCidr(subnet, netmask).value;
      var ip4, mask := IPv4.ParseIPv4(subnet).value, IPv4.ParseIPv4(netmask).value;
      exists i :: 0 <= i < |out| && out[i] == '/' &&
        IPv4.ParseIPv4(out[..i]) == Some(Network(ip4, mask)) &&
        Decimal.Canonical(out[i + 1..]) && Decimal.Value(out[i + 1..]) <= 32 &&
        Mask.Bits(mask) == Mask.PrefixBits(Decimal.Value(out[i + 1..]), 32)
  {
    var out := ToCidr(subnet, netmask).value;
    var ip4, mask := IPv4.ParseIPv4(subnet).value, IPv4.ParseIPv4(netmask).value;
    Mask.SizeAccepted(mask);
    var ones: nat := Mask.Size(mask).0;
    var address := IPv4.FormatIPv4(Network(ip4, mask));
    var i := |address|;
    assert out == address + "/" + Decimal.Format(ones);
    assert out[..i] == address;
    assert out[i + 1..] == Decimal.Format(ones);
    IPv4.FormatThenParse(Network(ip4, mask));
    Decimal.ValueOfFormat(ones);
  }

  /** Every one of the 33 netmasks /0 .. /32 is accepted, for any subnet, with its own length. */
  lemma EveryPrefixAccepted(ip: seq<bv8>, n: nat)
    requires IPv4.IsAddress(ip) && n <= 32
    ensures ToCidr(IPv4.FormatIPv4(ip), IPv4.FormatIPv4(Mask.PrefixMask(n)))
      == Ok(IPv4.FormatIPv4(Network(ip, Mask.PrefixMask(n))) + "/" + Decimal.Format(n))
  {
    IPv4.FormatThenParse(ip);
    IPv4.FormatThenParse(Mask.PrefixMask(n));
    Mask.PrefixMaskSize(n);
  }

  // ---------------------------------------------------------------------------------------
  // The provider's Run, which reports through the response it is handed

  class RunResponse {
    var error: Option<FuncError>
    var result: Option<string>

    /** The response the host hands to Run: no error and no result yet. */
    constructor ()
      ensures error == None && result == None
    {
      error := None;
      result := None;
    }
  }

  /**
   * Run: each failed check sets the error and returns at once; only a conversion that passes
   * every check sets the result. A fresh response thus ends with exactly one of the two.
   */
  method Run(subnet: string, netmask: string, resp: RunResponse)
    modifies resp
    ensures ToCidr(subnet, netmask).Ok? ==>
      resp.result == Some(ToCidr(subnet, netmask).value) && resp.error == old(resp.error)
    ensures ToCidr(subnet, netmask).Err? ==>
      resp.error == Some(ToCidr(subnet, netmask).error) && resp.result == old(resp.result)
    ensures old(resp.error) == None && old(resp.result) == None ==>
      (resp.error == None <==> resp.result != None)
  {
    var ip4 := IPv4.ParseIPv4(subnet);
    if ip4.None? {
      resp.error := Some(FuncError(0, InvalidSubnetText + subnet));
      return;
    }
    var mask4 := IPv4.ParseIPv4(netmask);
    if mask4.None? {
      resp.error := Some(FuncError(1, InvalidNetmaskText + Quote(netmask)));
      return;
    }
    var (ones, bits) := Mask.Size(mask4.value);
    if bits != 32 || ones < 0 {
      resp.error := Some(FuncError(1, MaskShapeText));
      return;
    }
    var network := NetworkOf(ip4.value, mask4.value);
    var response := IPv4.FormatIPv4(network[..]) + "/" + Decimal.Format(ones);
    resp.result := Some(response);
  }
}

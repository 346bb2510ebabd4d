/**
 * Dotted-decimal IPv4 addresses: what `net.ParseIP(s).To4()` yields for a dotted-decimal
 * string, and what `net.IP.String` prints for a 4-byte address.
 */
module IPv4 {

  import opened Wrappers
  import Decimal

  /** The fields of `s` between the dots, in order; "a..b" has an empty middle field. */
  function Split(s: string): (fields: seq<string>)
    ensures |fields| >= 1
    ensures forall k :: 0 <= k < |fields| ==> '.' !in fields[k]
  {
    if s == [] then [[]]
    else
      var rest := Split(s[1..]);
      if s[0] == '.' then [[]] + rest
      else [[s[0]] + rest[0]] + rest[1..]
  }

  /** The fields written out with a dot between each two. */
  function Join(fields: seq<string>): string
    requires |fields| >= 1
  {
    if |fields| == 1 then fields[0] else fields[0] + "." + Join(fields[1..])
  }

  /** Split undoes Join when no field holds a dot. */
  lemma {:induction false} SplitJoin(fields: seq<string>)
    requires |fields| >= 1
    requires forall k :: 0 <= k < |fields| ==> '.' !in fields[k]
    ensures Split(Join(fields)) == fields
  {
    if |fields| == 1 {
      NoDotSplit(fields[0]);
    } else {
      SplitJoin(fields[1..]);
      SplitPrefix(fields[0], Join(fields[1..]));
      assert [fields[0]] + fields[1..] == fields;
    }
  }

  /** A string without a dot is a single field. */
  lemma {:induction false} NoDotSplit(f: string)
    requires '.' !in f
    ensures Split(f) == [f]
  {
    if f != [] {
      assert '.' !in f[1..] by {
        forall k | 0 <= k < |f[1..]| ensures f[1..][k] != '.' { assert f[1..][k] == f[k + 1]; }
      }
      NoDotSplit(f[1..]);
      assert [f[0]] + f[1..] == f;
    }
  }

  /** A dot-free field in front of a dot becomes the first field of the split. */
  lemma {:induction false} SplitPrefix(f: string, tail: string)
    requires '.' !in f
    ensures Split(f + "." + tail) == [f] + Split(tail)
  {
    if f == [] {
      assert f + "." + tail == ['.'] + tail;
      assert (['.'] + tail)[1..] == tail;
    } else {
      var s := f + "." + tail;
      assert s[1..] == f[1..] + "." + tail;
      assert '.' !in f[1..] by {
        forall k | 0 <= k < |f[1..]| ensures f[1..][k] != '.' { assert f[1..][k] == f[k + 1]; }
      }
      SplitPrefix(f[1..], tail);
      assert [f[0]] + f[1..] == f;
    }
  }

  /** Join undoes Split. */
  lemma {:induction false} JoinSplit(s: string)
    ensures Join(Split(s)) == s
  {
    if s != [] {
      var rest := Split(s[1..]);
      JoinSplit(s[1..]);
      if s[0] == '.' {
        assert ([[]] + rest)[1..] == rest;
        assert s == "." + s[1..];
      } else {
        var fields := [[s[0]] + rest[0]] + rest[1..];
        if |rest| == 1 {
          assert s == [s[0]] + s[1..];
        } else {
          assert fields[1..] == rest[1..];
          assert [rest[0]] + rest[1..] == rest;
          assert s == [s[0]] + s[1..];
        }
      }
    }
  }

  /**
   * One field of a dotted-decimal address as Go reads it: at least one digit, nothing but
   * digits, no leading zero, and a value of at most 255.
   */
  function ParseOctet(field: string): (r: Option<bv8>)
    ensures r.Some? <==> Decimal.Canonical(field) && Decimal.Value(field) <= 255
    ensures r.Some? ==> r.value as int == Decimal.Value(field)
  {
    if Decimal.Canonical(field) && Decimal.Value(field) <= 255 then Some(ToByte(Decimal.Value(field)))
    else None
  }

  /** The byte holding a number below 256, built bit by bit from the most significant end. */
  function ToByte(n: int): (b: bv8)
    requires 0 <= n < 256
    ensures b as int == n
  {
    if n == 0 then 0 else (ToByte(n / 2) << 1) | (if n % 2 == 1 then 1 else 0)
  }

  /** Every byte is ToByte of its own value. */
  lemma ToByteOfValue(b: bv8)
    ensures ToByte(b as int) == b
  {
    assert ToByte(b as int) as int == b as int;
  }

  /** An address is four octets, most significant first. */
  predicate IsAddress(a: seq<bv8>) {
    |a| == 4
  }

  /** `net.ParseIP(s).To4()` for a dotted-decimal `s`: exactly four fields, each an octet. */
  function ParseIPv4(s: string): (r: Option<seq<bv8>>)
    ensures r.Some? ==> IsAddress(r.value)
  {
    var fields := Split(s);
    if |fields| == 4 && forall k :: 0 <= k < 4 ==> ParseOctet(fields[k]).Some? then
      Some(seq(4, k requires 0 <= k < 4 => ParseOctet(fields[k]).value))
    else
      None
  }

  /** The decimal fields of an address. */
  function Fields(a: seq<bv8>): (fields: seq<string>)
    requires IsAddress(a)
    ensures |fields| == 4
  {
    [Decimal.Format(a[0] as int), Decimal.Format(a[1] as int),
     Decimal.Format(a[2] as int), Decimal.Format(a[3] as int)]
  }

  /** `net.IP.String` for a 4-byte address. */
  function FormatIPv4(a: seq<bv8>): string
    requires IsAddress(a)
  {
    Join(Fields(a))
  }

  /** One octet printed and read back is the same byte. */
  lemma OctetRoundTrip(b: bv8)
    ensures '.' !in Decimal.Format(b as int)
    ensures ParseOctet(Decimal.Format(b as int)) == Some(b)
  {
    Decimal.ValueOfFormat(b as int);
    ToByteOfValue(b);
  }

  /** Parsing what FormatIPv4 prints gives the address back. */
  lemma FormatThenParse(a: seq<bv8>)
    requires IsAddress(a)
    ensures ParseIPv4(FormatIPv4(a)) == Some(a)
  {
    var fields := Fields(a);
    OctetRoundTrip(a[0]);
    OctetRoundTrip(a[1]);
    OctetRoundTrip(a[2]);
    OctetRoundTrip(a[3]);
    SplitJoin(fields);
    var parsed := seq(4, k requires 0 <= k < 4 => ParseOctet(fields[k]).value);
    assert parsed == a;
  }

  /** An accepted address string is exactly FormatIPv4 of the address it parses to. */
  lemma ParseThenFormat(s: string)
    requires ParseIPv4(s).Some?
    ensures FormatIPv4(ParseIPv4(s).value) == s
  {
    var fields := Split(s);
    var a := ParseIPv4(s).value;
    forall k | 0 <= k < 4 ensures Fields(a)[k] == fields[k] {
      Decimal.FormatOfValue(fields[k]);
    }
    assert Fields(a) == fields;
    JoinSplit(s);
  }
}

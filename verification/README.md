# tocidr — a verified model of the `tocidr` provider function

The Terraform provider `foxfunx` offers a function `tocidr(subnet, netmask)`. It takes a
dotted-decimal IPv4 subnet and a dotted-decimal IPv4 netmask. It returns the network in CIDR
prefix notation, `a.b.c.d/n`. The address is the subnet AND the mask, byte by byte, and `n`
is the number of leading one bits of the mask. The function fails with an error against
argument 0 when the subnet is not an IPv4 address. It fails against argument 1 when the
netmask is not an IPv4 address, or when the netmask is not a run of ones followed by zeros.

The model is split into modules that follow the steps of the provider's `Run`:

- `Decimal` (decimal.dfy): decimal numerals. `Format` is what Go's `%d` and `net.IP.String`
  print for a number. `Value` is what Go's IPv4 parser reads from a field.
- `IPv4` (ipv4.dfy): `net.ParseIP(s).To4()` restricted to dotted-decimal text (`ParseIPv4`),
  and `net.IP.String` for a 4-byte address (`FormatIPv4`). The two are proved inverse in
  both directions.
- `Mask` (mask.dfy): `net.IPMask.Size`. It is modelled after Go's `simpleMaskLength`:
  - `0xff` bytes count 8 each;
  - the first other byte has its leading ones shifted out one at a time;
  - what remains of that byte, and every byte after it, must be zero.

  `Bits` and `PrefixBits` give an independent definition of a contiguous mask. The
  algorithm is proved to accept exactly the contiguous masks, with the right length.
- `Cidr` (tocidr.dfy):
  - the conversion as one function, `ToCidr`;
  - Go's `%q` for the netmask error message;
  - the masking loop, as the method `NetworkOf` over a fresh 4-byte array;
  - the provider's `Run` as a method on a `RunResponse` object whose `error` and `result`
    fields it sets.
- `CidrCases` (cases.dfy): the input/output pairs of the provider's acceptance tests, proved
  about `ToCidr`.

Bytes are `bv8`, as Go's `byte`, so `&` and the shifts of `simpleMaskLength` are the machine
operations.

The guard at internal/provider/function_tocidr.go:69 tests both `bits != 32` and `ones < 0`.
Can `ones < 0` hold once `bits == 32`? `Mask.SimpleMaskLengthContiguous` and
`Mask.SizeRejected` settle it. `Size` itself answers `(0, 0)` for every non-contiguous mask,
so the check `bits != 32` alone rejects them. `ones` is never negative when `bits` is 32.

## Model

| member | source | states |
|---|---|---|
| Decimal.Format | internal/provider/function_tocidr.go:79 | the decimal text of a number is canonical: digits only, no leading zero, and one digit exactly for numbers below ten |
| Decimal.ValueOfFormat | internal/provider/function_tocidr.go:79 | reading back the decimal text of `n` gives `n` |
| Decimal.FormatOfValue | internal/provider/function_tocidr.go:53-54 | a canonical numeral is the decimal text of its own value, so each accepted field has exactly one spelling |
| Decimal.ValueOfLongCanonical | internal/provider/function_tocidr.go:53-54 | a canonical numeral of two or more digits is worth at least ten |
| IPv4.Split | internal/provider/function_tocidr.go:53-54 | splitting the text on dots gives at least one field, and no field holds a dot |
| IPv4.SplitJoin | internal/provider/function_tocidr.go:53-54 | splitting the dot-joined fields gives back the fields when none holds a dot |
| IPv4.JoinSplit | internal/provider/function_tocidr.go:53-54 | joining the fields of any text with dots gives back the text |
| IPv4.ParseOctet | internal/provider/function_tocidr.go:53-54 | a field is accepted exactly when it is a canonical decimal of at most 255, and then the byte is its value |
| IPv4.ToByte | internal/provider/function_tocidr.go:53-54 | the byte built for a number in 0..255 has that number as its value |
| IPv4.ParseIPv4 | internal/provider/function_tocidr.go:53-58 | an accepted text yields a 4-byte address |
| IPv4.Fields | internal/provider/function_tocidr.go:79 | an address prints as four decimal fields |
| IPv4.OctetRoundTrip | internal/provider/function_tocidr.go:79 | the decimal text of a byte holds no dot and parses back to that byte |
| IPv4.FormatThenParse | internal/provider/function_tocidr.go:79 | the printed form of every 4-byte address parses back to the same address |
| IPv4.ParseThenFormat | internal/provider/function_tocidr.go:53-58 | every accepted address text is the printed form of the address it parses to |
| Mask.ByteBits | internal/provider/function_tocidr.go:67-68 | a byte has eight bits, most significant first |
| Mask.Bits | internal/provider/function_tocidr.go:67-68 | a mask has eight bits per byte |
| Mask.PrefixBits | internal/provider/function_tocidr.go:67-68 | the reference contiguous mask of the given width: bit `j` is set exactly when `j < n` |
| Mask.PrefixMaskBytes | internal/provider/function_tocidr.go:67-68 | the prefix mask built byte by byte has the requested number of bytes |
| Mask.PrefixMask | internal/provider/function_tocidr.go:67-68 | the prefix mask of length `n` is 4 bytes long |
| Mask.ByteBitsInjective | internal/provider/function_tocidr.go:67-68 | two bytes have the same bits exactly when they are equal |
| Mask.ShiftLeftBits | internal/provider/function_tocidr.go:67-68 | shifting a byte left by one drops its first bit and appends a zero bit |
| Mask.ByteBitsAnd | internal/provider/function_tocidr.go:76 | each bit of `x & y` is the AND of the bits of `x` and `y` |
| Mask.BitsAt | internal/provider/function_tocidr.go:67-68 | bit `j` of a mask is bit `j % 8` of byte `j / 8` |
| Mask.OnesByteBits | internal/provider/function_tocidr.go:67-68 | the byte of `k` leading ones has exactly its first `k` bits set |
| Mask.ShiftOutOnesContiguous | internal/provider/function_tocidr.go:67-68 | when shifting out the leading ones of a byte leaves zero, the byte is a run of at most eight ones followed by zeros |
| Mask.ContiguousShiftOutOnes | internal/provider/function_tocidr.go:67-68 | a byte of `j` leading ones followed by zeros shifts out `j` ones and leaves zero |
| Mask.AllZeroBits | internal/provider/function_tocidr.go:67-68 | bytes are all zero exactly when no bit is set |
| Mask.SimpleMaskLengthContiguous | internal/provider/function_tocidr.go:67-68 | the mask-length algorithm answers `n` exactly when the mask is `n` ones followed by zeros, for any mask length |
| Mask.SizeOfContiguous | internal/provider/function_tocidr.go:67-69 | for a 4-byte mask and `n <= 32`, `Size` is `(n, 32)` exactly when the mask is the contiguous mask of length `n` |
| Mask.SizeAccepted | internal/provider/function_tocidr.go:67-69 | when `Size` reports 32 bits, its count of ones lies in 0..32 and the mask is contiguous with that many ones |
| Mask.SizeRejected | internal/provider/function_tocidr.go:67-72 | when `Size` does not report 32 bits, the mask is not contiguous for any length |
| Mask.PrefixMaskBytesBits | internal/provider/function_tocidr.go:67-68 | the prefix mask built byte by byte has exactly its first `n` bits set |
| Mask.PrefixMaskSize | internal/provider/function_tocidr.go:67-69 | the prefix mask of every length 0..32 is contiguous, and `Size` reports that length and 32 bits |
| Cidr.Escape | internal/provider/function_tocidr.go:63 | escaping never shortens the text |
| Cidr.Quote | internal/provider/function_tocidr.go:63 | a quoted text begins and ends with a double quote |
| Cidr.UnescapeEscape | internal/provider/function_tocidr.go:63 | the body of the quoted literal reads back as the original netmask text |
| Cidr.EscapePlain | internal/provider/function_tocidr.go:63 | text without quotes or backslashes is quoted unchanged between the double quotes |
| Cidr.Network | internal/provider/function_tocidr.go:74-77 | the network address has as many bytes as the subnet |
| Cidr.NetworkOf | internal/provider/function_tocidr.go:74-77 | the loop fills a fresh buffer whose bytes are each the subnet byte AND the mask byte |
| Cidr.NetworkIdempotent | internal/provider/function_tocidr.go:74-77 | masking the network again with the same mask changes nothing, and masking never makes a byte larger |
| Cidr.NetworkBits | internal/provider/function_tocidr.go:74-77 | bit by bit, the network address is the subnet AND the mask |
| Cidr.NetworkKeepsPrefix | internal/provider/function_tocidr.go:67-77 | under a contiguous mask of length `n`, the network keeps the subnet's first `n` bits and clears all host bits |
| Cidr.InvalidSubnet | internal/provider/function_tocidr.go:53-58 | a subnet that is not an IPv4 address gives the argument-0 error naming the subnet verbatim, whatever the netmask |
| Cidr.InvalidNetmask | internal/provider/function_tocidr.go:60-65 | after a valid subnet, a netmask that is not an IPv4 address gives the argument-1 error with the netmask quoted |
| Cidr.NonContiguousNetmask | internal/provider/function_tocidr.go:67-72 | with both addresses valid, a netmask that is contiguous for no length gives the argument-1 shape error |
| Cidr.ContiguousNetmask | internal/provider/function_tocidr.go:67-79 | with both addresses valid, the answer is the masked subnet followed by `/n` exactly when the netmask is `n` ones followed by zeros |
| Cidr.SuccessShape | internal/provider/function_tocidr.go:53-79 | every successful answer is an address that parses to the masked subnet, a slash, and a canonical decimal at most 32 that is the netmask's prefix length |
| Cidr.EveryPrefixAccepted | internal/provider/function_tocidr.go:67-79 | every subnet with every one of the 33 prefix masks is accepted, with the mask's own length after the slash |
| Cidr.RunResponse.constructor | internal/provider/function_tocidr.go:45 | the response handed to Run starts with no error and no result |
| Cidr.Run | internal/provider/function_tocidr.go:45-82 | each failed step sets the error and leaves the result; success sets the result to the CIDR text and keeps any earlier error; so a fresh response ends with exactly one of the two |
| CidrCases.HappyFlow | internal/provider/function_tocidr_test.go:26-31 | `tocidr("10.10.10.0", "255.255.255.0")` is `"10.10.10.0/24"` |
| CidrCases.ZeroAddress | internal/provider/function_tocidr_test.go:49-54 | `tocidr("0.0.0.0", "255.255.255.255")` is `"0.0.0.0/32"` |
| CidrCases.ZeroMask | internal/provider/function_tocidr_test.go:72-77 | `tocidr("0.0.0.0", "0.0.0.0")` is `"0.0.0.0/0"` |
| CidrCases.WrongIp | internal/provider/function_tocidr_test.go:95-98 | `tocidr("10.10.1000.0", "255.255.255.0")` fails on argument 0 with the invalid-address message |
| CidrCases.WrongNetmask | internal/provider/function_tocidr_test.go:114-117 | `tocidr("10.10.10.0", "255.255.2555.0")` fails on argument 1 with the invalid-netmask message and the quoted netmask |
| CidrCases.NonContiguous | internal/provider/function_tocidr.go:67-72 | `tocidr("10.10.10.0", "255.0.255.0")` fails on argument 1 with the shape error |

## Left out

- Go's `net.ParseIP` also accepts IPv6 text. `To4` then keeps only the IPv4-mapped forms such as
  `::ffff:10.10.10.0`. The model accepts dotted-decimal text only. Every other IPv6 text gives
  `nil` from `To4` and is rejected in both versions.
- The parser rejects a field with a leading zero, as Go 1.17 and later do. Older Go versions read
  such a field as decimal.
- Reading the arguments (`req.Arguments.Get`, line 51) and storing the result (`resp.Result.Set`,
  line 81) call into the plugin framework. The model assumes both succeed. It does not model the
  errors they can return or how `ConcatFuncErrors` merges them.
- Cidr.Quote: models `%q` for text of printable characters only. The escapes `%q` writes for
  control and other non-printable characters and for invalid UTF-8 (`\n`, `\x..`, `\u....`) are
  not modelled. Printable non-ASCII characters pass through unchanged, in Go and in the model.
- `Metadata` and `Definition` (lines 23-43) only describe the function to the host. `ctx` is
  never read by the logic and is not a parameter of the model.
- The provider's other function (`direxists`) and the provider registration are not part of
  this model.
- Cidr.Run: leaves out the `ConcatFuncErrors` of line 81. When the result is set, the model keeps
  the earlier error unchanged, which is what a successful `Result.Set` does.

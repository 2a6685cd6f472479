# OpenPGP packet and MPI codec — a Dafny model

This project models the small OpenPGP byte codec in `icb/openpgp/__init__.py`.
The codec has three parts:

- **MPI codec.** `MPI._encode` and `MPI._decode` handle the multiprecision
  integers of section 3.2 of RFC 4880. The wire form is a two-octet big-endian
  bit count followed by the value as big-endian octets.
- **Packet header framing.** `Packet._encodeNew`, `Packet._encodeOld` and
  `Packet._encode` write headers. The header-reading half of `Message._parse`
  reads them back. Old-format headers follow section 4.2.1 of RFC 4880. New-format
  headers follow section 4.2.2, with one-, two- and five-octet lengths. Partial
  lengths are refused.
- **Tag registry and messages.** `Message.tagToCls` maps a tag to a packet class.
  `Message.__str__` writes an ordered list of packets as one octet string.
  `Message._parse` reads the string back.

Octets are integers in 0..255 (`Bytes.byte`). Every `raise` in the source is an
alternative of `Errors.Error`. `Error.Raises()` gives the Python exception class
of each alternative (`ValueError` or `NotImplementedError`).

Files:

- `bytes.dfy`: big-endian octet strings, as `struct.pack` and `struct.unpack` read and write them.
- `mpi.dfy`: Python 2 `bin`/`hex` and the MPI codec.
- `errors.dfy`: the error kinds.
- `framing.dfy`: header encoders and the header reader.
- `messages.dfy`: packet classes, the registry, `__str__` and `_parse`.

The two loops of the source are methods with loop invariants. Each is proved
equal to a specification function:

- `Mpi.Decode` is proved equal to `Mpi.Decoded`.
- `Messages.Parse` is proved equal to `Messages.Parsed`.

The round-trip laws are lemmas about those functions.

Where the code departs from RFC 4880 or from what a reader might expect, the
model follows the code:

- `_encode(0)` writes `00 01 00` (bit count 1, one zero octet), not `00 00`.
- The registry knows only tags 2, 6 and 13. Classes with tags 5, 7 and 14 exist
  and can be written, but parsing them raises.
- The encoders return the header followed by the body, not the header alone.
- There is no "truncated input" error. A body or MPI value that runs past the end
  of the input is cut short by Python slicing. A header that runs past the end
  would fail by indexing; a precondition excludes that case (see below).
- A negative MPI value raises no error of its own. The model requires `n >= 0`.
- The errors are the source's `ValueError` and `NotImplementedError` raises,
  one alternative per kind of raise. `PartialBodyLength` stands for both the
  writer's refusal (line 58) and the reader's (line 155).

## Model

| member | source | states |
|---|---|---|
| `Mpi.Encode` | icb/openpgp/__init__.py:32-38 | The output is 2 + ceil(b/8) octets, where b is the number of binary digits of n (1 for zero). The first two octets are b, big-endian. The remaining octets are n, big-endian. `Encode(0)` is `00 01 00`. |
| `Mpi.ValueOctets` | icb/openpgp/__init__.py:35-38 | The hex digits of `hex(n)` without `0x` and `L`, padded and decoded, are exactly ceil(b/8) octets whose big-endian value is n. |
| `Mpi.HexDecode` | icb/openpgp/__init__.py:38 | `decode('hex')` of an even run of digits gives half as many octets, with the same value. |
| `Mpi.HexLengths` | icb/openpgp/__init__.py:34-35 | `hex(n)` has ceil(b/4) digits when `bin(n)` has b digits. |
| `Mpi.HexValueDigits` | icb/openpgp/__init__.py:35 | The digits of `hex(n)` denote n. |
| `Mpi.HexValuePad` | icb/openpgp/__init__.py:36-37 | Prefixing "0" to an odd digit string keeps its value, and the octet count becomes ceil(digits/2). |
| `Mpi.BitLengthBounds` | icb/openpgp/__init__.py:34 | `len(bin(n)[2:])` is one more than the position of the highest set bit, because 2^(b-1) <= n < 2^b for n > 0. For zero it is 1, and it is never below 1. |
| `Mpi.Decoded` | icb/openpgp/__init__.py:21-30 | Decoding consumes 2 + ceil(bitlen/8) octets, or all of them when fewer are present. The rest is the suffix after them. The value fits the octets read. |
| `Mpi.Decode` | icb/openpgp/__init__.py:21-30 | The shift-and-add loop computes exactly `Decoded`: the big-endian value of the clamped slice, and the rest. |
| `Mpi.DecodeEncode` | icb/openpgp/__init__.py:21-38 | For every n >= 0 whose bit count fits in 16 bits, decoding `Encode(n) + rest` gives back `(n, rest)`. |
| `Mpi.EncodeIntPath` | icb/openpgp/__init__.py:35 | On the plain-`int` path, the bit-count field is still written correctly, but the value octets denote n / 16 instead of n. There are only half as many of them as `hex(n)` has digits, rounded down. |
| `Mpi.IntPathLosesValue` | icb/openpgp/__init__.py:32-38 | On the plain-`int` path, 5 encodes as `00 03` and decodes to 0. The `long` path decodes back to 5. |
| `Framing.EncodeNew` | icb/openpgp/__init__.py:48-59 | The output is the octet `0xC0 + tag` (the source's bitwise or), then the length, then the body. The length is one octet l when l < 192. When 192 <= l <= 8383 it is two octets forming 48960 + l, with the first octet in 192..223. Above 8383 it raises `NotImplementedError`, and only then. |
| `Framing.EncodeOld` | icb/openpgp/__init__.py:61-75 | The output is the octet `0x80 + (tag<<2) + type`, then the length in 1, 2 or 4 big-endian octets, then the body. Type 0 is used for l < 255, type 1 for l < 0xFFFF, type 2 for l < 0xFFFFFFFF. Otherwise it raises `ValueError`, and only then. |
| `Framing.Encode` | icb/openpgp/__init__.py:77-89 | The hint 'old' forces the old encoder and 'new' the new one. Any other non-empty hint raises `ValueError`. With no hint, old is used for tag < 15 and new otherwise. Bit 6 of the first octet shows which encoder was used. |
| `Framing.ReadHeader` | icb/openpgp/__init__.py:130-178 | A header that is read takes at least 2 octets and no more than the blob holds, and yields a tag below 32 (below 16 for old format). Each of these holds exactly when its condition holds: `ValueError` when bit 7 is clear; partial length for a new-format length octet in 224..254; indeterminate length for old length type 3. |
| `Framing.ReadEncodedNew` | icb/openpgp/__init__.py:134-155 | Reading what `_encodeNew` wrote recovers the tag and the body length. The header takes the 2 or 3 octets written, and the body follows it. |
| `Framing.ReadEncodedOld` | icb/openpgp/__init__.py:156-178 | Reading what `_encodeOld` wrote recovers the tag and the body length. The header takes the 2, 3 or 5 octets written, and the body follows it. |
| `Framing.ReadEncoded` | icb/openpgp/__init__.py:77-89 | Whatever encoder `_encode` selects, the reader recovers the tag and length and finds the body where it was written. |
| `Framing.ReadFiveOctetLength` | icb/openpgp/__init__.py:145-153 | The reader also accepts `0xFF` plus a four-octet length, as a six-octet header, although no encoder writes that form. |
| `Messages.Packet.ToBytes` | icb/openpgp/__init__.py:45-46 | `str(packet)` always uses the old format, because every class has a tag below 15. It succeeds exactly when the body is shorter than 0xFFFFFFFF. |
| `Messages.TagToCls` | icb/openpgp/__init__.py:183-191 | Only tags 2, 6 and 13 resolve, each to a class carrying that tag. Every other tag raises `NotImplementedError` with that tag. |
| `Messages.UnregisteredClassesRejected` | icb/openpgp/__init__.py:94-101 | A private key, private subkey or public subkey packet can be written, but parsing the result raises an unimplemented-tag error. |
| `Messages.Serialize` | icb/openpgp/__init__.py:193-194 | Writing a message succeeds exactly when every body is shorter than 0xFFFFFFFF. The empty message writes the empty string. |
| `Messages.Parsed` | icb/openpgp/__init__.py:128-181 | The empty string parses to no packets. Parsed packets all have registered tags. At most one packet comes from every two octets, since each header takes at least two. |
| `Messages.ReadHeaderOctets` | icb/openpgp/__init__.py:130-178 | The inline shift-and-add header code computes exactly `ReadHeader`, and rebinds the blob to just past the header. |
| `Messages.Parse` | icb/openpgp/__init__.py:128-181 | The `while blob:` loop computes exactly `Parsed`: the same packets in the same order, or the first error raised. |
| `Messages.ParseSerialize` | icb/openpgp/__init__.py:128-194 | Take packets with tags in {2, 6, 13} and bodies shorter than 0xFFFFFFFF. Parsing the string they write yields the same classes and bodies, in the same order. |
| `Messages.UserIDExample` | icb/openpgp/__init__.py:103-109 | A 22-octet user ID is written as `B4 16` followed by the identity octets (tag 13, old format, length type 0). That string parses back to the same user ID packet. |
| `Messages.ParseRejects` | icb/openpgp/__init__.py:131-191 | Parsing raises on the first packet when bit 7 is clear, when a new-format length octet is 224..254, when the old length type is 3, or when the tag is not 2, 6 or 13. |
| `Messages.NewMessage` | icb/openpgp/__init__.py:118-126 | A message built from a list keeps that list. A message built from nothing is empty. A message built from a string holds what `_parse` returns, or fails with its error. |

## Left out

- `MPI.__repr__`, `MPI.__long__`, `UserIDPacket.__repr__`, `Message.__repr__`: display only.
- The `MPI` constructor's dispatch on `int`/`long`/`str`, and its `TypeError`, are left out. `MPI.__str__` is `Mpi.Encode` of a stored `long`, and `Mpi.EncodeIntPath` of a stored plain `int` (see Findings).
- The `Message` constructor's `TypeError` branch is left out. The constructor's argument kinds are alternatives of `Messages.Source`.
- Python object identity and class inheritance are not modelled. A packet is its class (`Messages.PacketClass`) and its octet string. `UserIDPacket` stores that string as `uid` rather than `body`, but writes it out the same way.
- Hints other than `None` or a string are not modelled.
- `Mpi.Encode`: requires a bit count below 65536. Above that, `struct.pack("!H")` fails, and the source does not check for it.
- `Mpi.Decode`, `Mpi.Decoded`: require at least two octets. With fewer, `struct.unpack` fails; that failure is not modelled.
- `Framing.ReadHeader`, `Messages.Parsed`, `Messages.Parse`: require that every header octet the reader indexes is present (`HeaderReadable`, `Readable`). A short header makes Python raise `IndexError`, which is not modelled. Bodies that run past the end are modelled, clamped as Python slices them.
- `Framing.EncodeOld`: requires tag < 16. `Framing.EncodeNew`: requires tag < 32. `Framing.Encode`: requires tag < 16 when the old encoder is chosen and tag < 32 when the new one is; an unrecognized hint raises `ValueError` for any tag. Larger tags overflow into the format bits, and the source does not check for them.
- Nothing cryptographic is modelled. Packet bodies have no meaning here.

## Findings

| source | as written | input that shows it | evidently intended | confidence | as-written member | corrected member |
|---|---|---|---|---|---|---|
| icb/openpgp/__init__.py:35 | `hex(num)[2:-1]` always removes the last character, expecting the `L` that only a Python 2 `long` prints. | `MPI(5)` with a plain `int`: `hex(5)` is `0x5`, so no value octets are written. `_encode` gives `00 03`, which `_decode` reads as 0. | Remove the `L` only when it is there, so every value round-trips. | not executed | `Mpi.EncodeIntPath` | `Mpi.Encode` |

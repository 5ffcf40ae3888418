# SMS → Base64(GPS) responder, modelled in Dafny

`code.py` is a small Termux script that polls the phone's latest SMS. A
message counts as new only when its `received` value differs from the last
one seen; at start-up, a message without a `received` field does not count.
The first new message whose body contains `ccbaba` (in any letter case), and
for which a GPS fix is obtained, gets a reply: the position as a `"lat,lon"`
string, run through `b64_encode`. The sender of that message becomes the
trusted number. A triggering message without a fix gets no reply and trusts
no one. Once a number is trusted, only new messages from that number get a
reply, again only when there is a fix.

`b64_encode` encodes the UTF-8 bytes of its input with the URL- and
filename-safe base64 alphabet, with `=` padding (section 5 of RFC 4648).
When the encoding has at least 12 characters, its first two 6-character
blocks are swapped.

The project has four modules:

- `Options` holds the `Option` datatype, standing for Python's `None`-or-value.
- `Base64Url` is the RFC 4648 section 5 encoder. It comes with a strict
  decoder as its partner, and a round trip is proved in both directions:
  - decoding an encoding gives back the bytes;
  - an accepted string is the encoding of what it decodes to.
- `Obfuscator` models `str.encode()` (UTF-8), the block swap and
  `b64_encode`. The swap is its own inverse, so swapping back and then
  decoding gives back the input's bytes.
- `Responder` models one iteration of `main`'s loop in two forms:
  - a pure step function `Next` over the state (`last_received`, `trusted_number`);
  - a class `Responder` whose `Poll` method updates those two fields in
    place the way the loop does and is proved equal to `Next`.

  `Run` and `Responder.RunPolls` extend the model to a finite sequence of
  polls. The lemmas state the trust rules, both for one poll and for whole
  runs.

The tool calls (`latest_sms`, `get_location`, `send_sms`) become inputs of
each poll:
- the list of messages;
- the fix, as an `Option<string>`;
- the send result, as a `bool`.

The SMS sends come back as an output list.

The code is followed where its comments disagree with it:
- The comments at code.py:3 and code.py:74 speak of a `'W'` trigger, but the code searches for `ccbaba`.
- The trusted number is recorded only inside `if loc:`, that is, only when a fix was obtained. It does not depend on whether the send succeeded.

## Model

| member | source | states |
|---|---|---|
| Base64Url.PadCount | code.py:49 | the number of `=` characters for n input bytes is below 3 and makes n plus it a multiple of 3 |
| Base64Url.Symbols | code.py:49 | the 6-bit symbols of the encoding number 4·⌈n/3⌉; all are sextets up to the padding, and the last PadCount(n) are the pad symbol |
| Base64Url.Encode | code.py:49 | `base64.urlsafe_b64encode`: length 4·⌈n/3⌉, characters from `A–Z a–z 0–9 - _` before the padding and `=` after it |
| Base64Url.BytesOfSymbols | code.py:49 | decoding the symbols of any byte sequence gives back that byte sequence (induction over 3-byte groups) |
| Base64Url.SymbolsOfBytes | code.py:49 | a symbol sequence the strict decoder accepts is exactly the encoding of the bytes it decodes to |
| Base64Url.ValueOfCharOf | code.py:49 | every sextet maps to an alphabet character that maps back to it |
| Base64Url.CharOfValueOf | code.py:49 | every alphabet character maps to a sextet that maps back to it |
| Base64Url.ToSymbolsToChars | code.py:49 | turning symbols into characters and back is the identity |
| Base64Url.ToCharsToSymbols | code.py:49 | turning encoding characters into symbols and back is the identity |
| Base64Url.DecodeEncode | code.py:49 | decoding the encoding of any bytes gives back those bytes |
| Base64Url.EncodeDecode | code.py:49 | any string the strict decoder accepts is the encoding of what it decodes to |
| Base64Url.ShortTestVectors | code.py:49 | the encodings of "", "f", "fo" and "foo" are the ones in section 10 of RFC 4648 |
| Base64Url.FoobTestVector | code.py:49 | the encoding of "foob" is the one in section 10 of RFC 4648 |
| Base64Url.FoobaTestVector | code.py:49 | the encoding of "fooba" is the one in section 10 of RFC 4648 |
| Base64Url.FoobarTestVector | code.py:49 | the encoding of "foobar" is the one in section 10 of RFC 4648 |
| Base64Url.UrlSafeTestVector | code.py:49 | bytes fb ff bf encode to `-_-_`, the two characters of the URL-safe alphabet |
| Base64Url.EncodeInjective | code.py:49 | distinct byte sequences have distinct encodings |
| Obfuscator.CodePointBytes | code.py:49 | `str.encode()` of one character: 1 to 4 bytes, and one byte equal to the code point exactly for ASCII |
| Obfuscator.Utf8 | code.py:49 | `s.encode()` takes between 1 and 4 bytes per character; for an ASCII string it is the string's own codes |
| Obfuscator.SwapBlocks | code.py:50-55 | below 12 characters the encoding is returned unchanged; from 12 on, characters 0..6 and 6..12 trade places; the length, the multiset of characters and everything from index 12 on are kept |
| Obfuscator.SwapBlocksInvolution | code.py:53-55 | applying the swap twice restores the encoding |
| Obfuscator.SwapKeepsEncodingChars | code.py:53-55 | the swap keeps a string made of alphabet and `=` characters made of them |
| Obfuscator.SwapBackDecodes | code.py:49-54 | swapping a swapped encoding back and decoding gives the encoded bytes |
| Obfuscator.B64Encode | code.py:48-55 | the payload has the length of the plain encoding, uses only alphabet and `=` characters, is a permutation of the plain encoding, and swapping back then decoding gives back `s.encode()` |
| Obfuscator.SwapBoundary | code.py:50-55 | up to 6 input bytes the plain encoding is returned; from 7 bytes on the result is E[6..12] + E[0..6] + E[12..] |
| Obfuscator.AsciiLength | code.py:48-49 | for an ASCII input such as a coordinate pair the payload has 4·⌈n/3⌉ characters |
| Obfuscator.SevenBytesMovePadding | code.py:53-55 | for a 7-byte input the two `=` of the 12-character encoding land at positions 4 and 5 of the payload |
| Responder.SearchFrom | code.py:76 | finds a match from index i on exactly when the trigger occurs, ignoring case, at some index at or after i |
| Responder.ContainsTrigger | code.py:76 | `re.search("ccbaba", body, re.IGNORECASE)` succeeds exactly when the trigger occurs somewhere in the body, ignoring case |
| Responder.Sender | code.py:67 | `msg.get("number", "")`: the number when the field is present, the empty string when it is absent |
| Responder.Body | code.py:68 | `msg.get("body", "")`: the body when the field is present, the empty string when it is absent |
| Responder.IsNovel | code.py:64-70 | `if items:` and `rec != last_received`: false for an empty list, and otherwise true exactly when the latest `received` differs from the last one seen |
| Responder.HasFix | code.py:79-94 | `if loc:` is false for `None` and for the empty string, and true exactly for a non-empty string |
| Responder.Payload | code.py:80-95 | `b64_encode(loc)` for a fix is at least 4 characters long, and swapping its blocks back and decoding gives the UTF-8 bytes of the fix |
| Responder.Next | code.py:63-101 | one loop iteration: a missing or already-seen message changes nothing; a new one records its `received`; trust changes only from unset, for a matching body with a fix, to the sender; at most one SMS is sent, to the sender, carrying `b64_encode` of the fix |
| Responder.Run | code.py:62-102 | a finite sequence of polls sends at most one SMS per poll |
| Responder.Responder.constructor | code.py:59-60 | both `last_received` and `trusted_number` start as `None` |
| Responder.Responder.Poll | code.py:63-101 | updating the two fields in place and collecting the sends gives exactly the state and sends of `Next` |
| Responder.Responder.RunPolls | code.py:62-102 | the loop over finitely many polls ends in the state, and with the sends, of `Run` |
| Responder.NothingNewNothingDone | code.py:63-71 | an empty inbox, or a latest message whose `received` equals `last_received`, changes nothing and sends nothing |
| Responder.MissingReceiptAtStartIsIgnored | code.py:59-70 | at start-up a message without a `received` field is treated as already seen |
| Responder.UnarmedIgnoresOtherBodies | code.py:75-88 | with no trusted number, a new body without the trigger only records `received` |
| Responder.UnarmedTriggerWithFix | code.py:75-84 | with no trusted number, a new triggering message with a fix is answered once to its sender, who becomes trusted |
| Responder.UnarmedTriggerWithoutFix | code.py:78-86 | with no trusted number and no fix, nothing is sent and no one is trusted |
| Responder.ArmedIgnoresOthers | code.py:89-101 | once armed, a message from any other number is not answered and trust is unchanged, whatever its body |
| Responder.ArmedAnswersTrusted | code.py:89-99 | once armed, a new message from the trusted number is answered, once, exactly when there is a fix |
| Responder.SendResultIsIgnored | code.py:81-97 | the result of `send_sms` affects neither the state nor what is sent |
| Responder.RepeatedPollIsIdempotent | code.py:70-71 | polling the same latest message again does nothing, whatever the tools answer |
| Responder.TrustIsPermanent | code.py:75-89 | once a number is trusted it stays trusted for the rest of any run |
| Responder.OnlyTrustedIsAnswered | code.py:89-101 | once a number is trusted, every SMS for the rest of any run goes to it |
| Responder.TrustNeedsTriggerAndFix | code.py:75-84 | a number trusted at the end of a run that started unarmed sent, in some poll, a message that was new at that point of the run, matched the trigger and came with a fix |
| Responder.SentPayloadsComeFromFixes | code.py:79-96 | every SMS of a run carries `b64_encode` of a fix obtained in some poll |
| Responder.TrustedScenario | code.py:75-101 | a mixed-case `CcBaBa` message with a fix is answered and its sender trusted; a later `ccbaba` from another number gets no reply |

## Left out

- `run`, `get_location`, `latest_sms` and `send_sms` (code.py:13-46) run Termux tools in subprocesses, parse JSON and swallow exceptions. Their results are inputs of each poll. A failure of `latest_sms` is the empty message list, and a failure of `get_location` is `None`.
- In the model, the fix is an input of every poll. The source calls `get_location` only on the branches that use it (code.py:78, 93). The model's other branches ignore the fix, so the visible behaviour is the same.
- JSON values other than strings in the `received`, `number` or `body` fields (numbers, or an explicit `null`) are not modelled. Each field is a string or absent.
- The float formatting `f"{lat:.6f},{lon:.6f}"` (code.py:27) is floating point. The coordinate string is an opaque input.
- `time.sleep(SMS_POLL)`, the endless `while True` and the `KeyboardInterrupt` handler (code.py:62, 102-108) are timing and process lifecycle. The model covers one step and finite sequences of steps.
- All `print` calls are logging only, including `print(b64)` inside the encoder (code.py:52).
- Python's own base64 decoder is not modelled. `Base64Url.Decode` is a strict decoder in the sense of section 3.5 of RFC 4648: no stray characters, canonical padding, zero pad bits. It stands in as the partner of the encoder.
- Obfuscator.Utf8: characters are Dafny `char`s, which are Unicode scalar values. Python strings can also hold lone surrogates, for which `str.encode()` raises. That path is not modelled.
- Responder.ContainsTrigger: only ASCII case folding is modelled. No non-ASCII character folds to `a`, `b` or `c` under `re.IGNORECASE`, so matches of `ccbaba` are unaffected.
- `startup.py` is an installer script (copying files, installing packages, writing a boot script) with no decision logic. It is not part of this model.

# xserviceaccount token pipeline, in Dafny

`xsa.c` walks a directory tree looking for files named `token`. This project models
how it decodes each such file, which is a Kubernetes service-account token. The
program:

1. reads the file in `fgets` chunks into a growing heap buffer, dropping the `\n`
   that ends each chunk;
2. takes the second non-empty `.`-separated field of the text, as its two
   `strtok_r` calls find it. This is the payload of a compact JWS (section 7.1 of
   RFC 7515);
3. pads the payload with `=` up to a multiple of four characters;
4. decodes it with a table-driven base64 decoder;
5. searches the decoded JSON for the nested key path
   `"kubernetes.io"` / `"serviceaccount"` / `"name"`. It uses leftmost `strstr` and
   `strchr` searches and returns the text between the next two quotes.

Each stage reports through `log_printf`. Here the log is a sequence of `Log.Event`
values, and the report of one decoding attempt is a `Jwt.Outcome`:
`InvalidFormat`, `DecodeFailed`, `NameNotFound` or `Found(name, token)`.

Modules, in pipeline order:

- `Bytes` (`bytes.dfy`): bytes are `bv8`. A path is the sequence of entry names
  below the scan root. `CString` is the text a C string function sees: every byte
  before the first NUL.
- `Base64` (`base64.dfy`): `base64_decode`.
  - The `Decode` method keeps the source's group loop, its output array and its
    guarded writes.
  - The signed table values are written as 8-bit two's complement: -1 is `0xFF`
    and -2 is `0xFE`. The right shifts are arithmetic (`Sar`).
  - Decode is proved equal to the function `DecodeSpec`.
  - Its partner is the padded RFC 4648 section 4 encoder `Encode`. The lemma
    `DecodeEncode` proves the round trip.
- `ServiceAccount` (`extract.dfy`): `extract_serviceaccount_name`, modelled as pure
  functions. `Find` is `strstr` and `FindByte` is `strchr`, each characterised as
  the leftmost match. The module has soundness lemmas (what a found name looks like)
  and completeness lemmas (a claim of the usual shape is found).
- `Jwt` (`jwt.dfy`): `decode_jwt_and_extract_name`.
  - `Payload` models the two `strtok_r` calls. It is proved to be the second
    non-empty field of the token split at its dots.
  - The padding loop is the `PadPayload` method.
  - The whole call is the `DecodeJwtAndExtractName` method. It is proved equal to
    the function `DecodeOutcome`.
- `Log` (`log.dfy`): the logged lines.
- `TokenReader` (`reader.dfy`): `read_and_process_token`.
  - The accumulation loop runs over a reallocated `array`, and the buffer always
    keeps room for the text and its terminator.
  - The token text is proved to be the file with every `\n` removed.
- `Walker` (`walker.dfy`): `traverse_directory` over an abstract tree of entries.
  - `Targets` is the selection rule. It decides which token files are read and
    which directories fail to open, in `readdir` order.
  - `Run` is what processing those actions logs.
  - The method `TraverseDirectory` is proved equal to `Run(Targets(..))`.

The decoder is more lenient than section 3.3 of RFC 4648, which treats a `=`
before the end of the data as an error. This code never rejects a `=`: the table
maps it to -2, and the rejection test looks only for -1. The model keeps this
behaviour, and `Base64.AcceptsPaddingAnywhere` and `Base64.OnlyPaddingDecodes`
state it.

## Model

| member | source | states |
|---|---|---|
| Bytes.CString | xsa.c:148 | the text `strlen` measures is the longest NUL-free prefix: it ends at the first NUL or at the end of the buffer |
| Base64.DecodeTable | xsa.c:14-31 | every table entry is -1, -2 or a sextet below 64 |
| Base64.TableInvertsEncoding | xsa.c:14-31 | the table inverts the RFC 4648 alphabet on every character it accepts; '=' and only '=' maps to -2 |
| Base64.Padding | xsa.c:34-41 | counts at most two '=' and at most the input length; the counted characters are '='; when fewer than two are counted, the character before them is not '=' |
| Base64.OutputLength | xsa.c:43 | the length is never below -1, and it is negative (so -1, and `malloc` gets 0) exactly for the inputs "=" and "=="; for a length that is a multiple of four it is 3n/4 minus the padding |
| Base64.Sar | xsa.c:58-59 | `b >> 4` and `c >> 2` on a signed `char`, cut back to 8 bits: the low 8 - n bits of the result are the value's upper bits, and the top n + 1 bits all copy its sign bit |
| Base64.GroupByte | xsa.c:58-60 | the three byte assignments of one group, each truncated to a `char`; GroupBytesOfWord says what they compute |
| Base64.GroupBytesOfWord | xsa.c:58-60 | for four sextets, the three bytes of a group are those of the 24-bit word the sextets spell, most significant first |
| Base64.DecodeSpec | xsa.c:13-65 | the decoder's result: NULL when some input character has table value -1, otherwise the first output-length bytes of the decoded stream; Decode is proved equal to it, and DecodeEncode, AcceptsPaddingAnywhere and OnlyPaddingDecodes state its properties |
| Base64.Sextet | xsa.c:48-51 | the table value the loop reads at a position: the table entry of the input character, or 0 past the end of the input |
| Base64.GroupAccepted | xsa.c:53 | the rejection test: no table value of the group is -1 (the `!= '='` clauses add nothing, because '=' maps to -2); DecodeGroup, DecodeSpec and AcceptedGroups rest on it |
| Base64.DecodeGroup | xsa.c:47-61 | one loop pass succeeds iff no table value of the group is -1; it writes the group's bytes only below the output length and leaves every other output byte unchanged |
| Base64.Decode | xsa.c:13-65 | the method returns DecodeSpec; it returns NULL exactly when some input character has table value -1; otherwise its result has the computed output length |
| Base64.RejectedGroup | xsa.c:53-55 | a group that fails the test holds an input character whose table value is -1 |
| Base64.AcceptedGroups | xsa.c:47-56 | when every group up to the end of the input passes, no input character has table value -1 |
| Base64.DecodedGroups | xsa.c:58-60 | the bytes written group by group are exactly the prefix of the decoded stream |
| Base64.RejectsUrlAlphabet | xsa.c:17-20 | any input holding the base64url characters '-' or '_' decodes to NULL |
| Base64.AcceptsPaddingAnywhere | xsa.c:18 | input made only of alphabet characters and '=' always decodes, wherever the '=' stand, with the computed length |
| Base64.OnlyPaddingDecodes | xsa.c:53-60 | "====" is accepted and decodes to the single byte 0xFF |
| Base64.TrailingPadding | xsa.c:36-41 | the padding the decoder counts on an encoding is the number of bytes its last quantum lacks |
| Base64.EncodedOutputLength | xsa.c:43 | the output length computed for the encoding of b is \|b\| |
| Base64.EncodingAccepted | xsa.c:53 | no character of an encoding has table value -1 |
| Base64.DecodeEncodedQuantum | xsa.c:58-60 | the group of four characters that encodes a quantum decodes back to that quantum's bytes |
| Base64.DecodeEncode | xsa.c:13-65 | round trip: decoding the padded encoding of any bytes b succeeds, with output length \|b\|, and yields b |
| ServiceAccount.Find | xsa.c:68-75 | `strstr` from a position: the result is a match at or after it, with no match before it; None means there is no match at any position from it |
| ServiceAccount.FindByte | xsa.c:77-84 | `strchr` from a position: the result is the first occurrence of the byte at or after it; None means the byte does not occur there |
| ServiceAccount.FindKeys | xsa.c:68-75 | a found "name" key lies wholly inside the text |
| ServiceAccount.FindKeysShape | xsa.c:68-75 | the three keys are found in nesting order; each is the leftmost match from where its search started (the start of the previous match) |
| ServiceAccount.QuotedValue | xsa.c:77-89 | a found value holds no quote, and no NUL when the text has none; QuotedValueShape and FindsQuotedValue characterise it in both directions |
| ServiceAccount.QuotedValueShape | xsa.c:77-89 | a found value follows the first ':' at or after the start position; it stands between two quotes with no quote between that colon and the first of them; it holds no quote, and no NUL when the text has none |
| ServiceAccount.FindsQuotedValue | xsa.c:77-89 | converse of QuotedValueShape: when the first ':' from the start is followed, with no quote between, by a quote, a quote-free name and a quote, the value found is that name |
| ServiceAccount.NameInText | xsa.c:68-89 | there is no name unless all three keys are found; a found name holds no quote, and no NUL when the text has none |
| ServiceAccount.ExtractName | xsa.c:67-92 | the extractor on the decoded buffer: a found name holds no quote and no NUL |
| ServiceAccount.ExtractedNameIsQuoted | xsa.c:67-92 | a found name holds no quote and no NUL; in the C string it follows the first quote after the first ':' that follows the three keys in order, and runs to the next quote |
| ServiceAccount.IgnoresBytesAfterNul | xsa.c:63 | the bytes after the first NUL of the decoded buffer never change the result |
| ServiceAccount.NoKubernetesKey | xsa.c:68-69 | without a "kubernetes.io" key in the C string there is no name |
| ServiceAccount.ServiceAccountAfterKubernetes | xsa.c:71-72 | a "serviceaccount" key that occurs only before the first "kubernetes.io" key is not found |
| ServiceAccount.FindFirst | xsa.c:68 | a match with no match before it is exactly what `strstr` returns |
| ServiceAccount.FindByteFirst | xsa.c:77 | an occurrence with no occurrence before it is exactly what `strchr` returns |
| ServiceAccount.FindsValue | xsa.c:77-89 | after the "name" key of a well-formed claim, the value search returns the quoted name |
| ServiceAccount.ExtractsClaimedName | xsa.c:67-92 | completeness: a quote-free name after `"kubernetes.io":{"serviceaccount":{"name":"` (with no quote before it) is extracted |
| ServiceAccount.DefaultServiceAccount | xsa.c:67-92 | `{"kubernetes.io":{"serviceaccount":{"name":"default"}}}` yields `default` |
| ServiceAccount.ExtractsLeftmostKeys | xsa.c:67-92 | completeness, converse of FindKeysShape and ExtractedNameIsQuoted: when each key is the leftmost match from the previous key's start, the ':' is the first after the "name" key, and a quote-free name is quoted after it, that name is extracted |
| ServiceAccount.NoKeyInSegment | xsa.c:68-74 | a quoted key cannot start inside a segment in which no quote is followed by the key's first letter |
| ServiceAccount.FirstAfterQuotes | xsa.c:68-74 | such a segment holds no match of the key that follows it, so the search finds that key |
| ServiceAccount.ExtractsNestedName | xsa.c:67-92 | completeness for the projected-token layout: anything may precede `"kubernetes.io":{`, and other members (a pod with its own "name") may precede `"serviceaccount":{"name":"`, as long as the searched keys do not occur earlier; the service account's name is extracted, because the "name" search starts at the "serviceaccount" key |
| ServiceAccount.ProjectedTokenClaim | xsa.c:67-92 | `{"aud":"api","kubernetes.io":{"pod":{"name":"web-0"},"serviceaccount":{"name":"builder"}}}` yields `builder`, not the pod's `web-0` |
| Jwt.SkipDots | xsa.c:97-98 | `strtok_r` skips leading delimiters: the result is the first non-'.' at or after the start, with only dots before it |
| Jwt.FieldEnd | xsa.c:97-98 | a token ends at the first '.' at or after its start, or at the end, and holds no '.' |
| Jwt.Payload | xsa.c:95-104 | the payload, when there is one, is non-empty and holds no '.' |
| Jwt.Resume | xsa.c:97-98 | where `strtok_r` leaves `*saveptr`: just past the first '.' at or after the token's start, or at the end of the text when no '.' follows the start (a '.' as the last byte also resumes at the end) |
| Jwt.FirstField | xsa.c:97-98 | one `strtok_r` call returns the first non-empty field and resumes after it; none remains when only dots are left |
| Jwt.PayloadIsSecondField | xsa.c:95-104 | the payload is the second non-empty field of the token split at its dots; there is none (InvalidFormat) when the token has fewer than two |
| Jwt.PadCount | xsa.c:107 | fewer than four '=' are added, and they bring the length to a multiple of four |
| Jwt.Padded | xsa.c:106-112 | the padded payload: the payload followed by PadCount '='; PaddedShape, PadPayload and Repad state its properties |
| Jwt.PaddedShape | xsa.c:106-112 | the padded payload is a positive multiple of four long; it is the payload followed only by '='; the decoder's output length on it is not negative |
| Jwt.PadPayload | xsa.c:106-112 | the `strcpy` and `strcat` loop builds exactly the padded payload |
| Jwt.Repad | xsa.c:107-112 | for text whose length is a multiple of four, padding undoes the removal of trailing '=' |
| Jwt.DecodeOutcome | xsa.c:94-133 | InvalidFormat exactly when there is no payload; a Found name holds no quote or NUL and is reported with the whole token |
| Jwt.DecodeJwtAndExtractName | xsa.c:94-133 | the method's report is DecodeOutcome of the token |
| Jwt.PayloadOfCompactToken | xsa.c:97-98 | the payload of header.payload.signature, for a non-empty dot-free header and payload, is that payload |
| Jwt.UnpaddedEncoding | xsa.c:106-112 | an unpadded base64 encoding is a non-empty, dot-free payload that padding restores exactly |
| Jwt.ServiceAccountToken | xsa.c:94-133 | end to end: a token whose payload is the unpadded encoding of a JSON text reports what the extractor finds in that text (NameNotFound or Found) |
| TokenReader.ChunkEnd | xsa.c:147 | an `fgets` chunk is non-empty and at most 4095 bytes; only its last byte may be '\n'; it ends after a '\n', when full, or at the end of the file |
| TokenReader.RemoveNewlines | xsa.c:149-152 | the text read has no '\n' and is no longer than the file |
| TokenReader.RemoveNewlinesAppend | xsa.c:158 | removing newlines commutes with concatenating chunks |
| TokenReader.KeepsOtherBytes | xsa.c:149-152 | bytes other than '\n', '\r' included, are all kept |
| TokenReader.EmptyWhenOnlyNewlines | xsa.c:162 | the text read is empty exactly when the file holds only '\n' bytes |
| TokenReader.Stripped | xsa.c:149-152 | the chunk after the newline check: without its last byte when that byte is '\n'; StrippedChunk relates it to RemoveNewlines |
| TokenReader.StrippedChunk | xsa.c:149-152 | stripping a chunk's final '\n' removes every '\n' in it |
| TokenReader.NextChunk | xsa.c:147-159 | appending the stripped chunk to the text read so far gives the text read up to the chunk's end |
| TokenReader.NewCapacity | xsa.c:154-156 | after the growth check, the buffer holds at least 4096 bytes and has room for the text, the chunk and the terminator |
| TokenReader.Realloc | xsa.c:155 | a fresh block of the requested size that keeps the old bytes that fit |
| TokenReader.Append | xsa.c:158 | `strcat` scans for the token's terminator as `strlen` does; on a token whose first NUL is at `total` it writes the NUL-free chunk there and then a terminator, so the new text is the old text followed by the chunk, with no NUL before the terminator |
| TokenReader.AppendChunk | xsa.c:154-159 | one loop pass: the buffer is the same or fresh, has the grown size, holds the old text followed by the chunk, and its first NUL is right after them, so total_len stays `strlen(token)` |
| TokenReader.ReadToken | xsa.c:142-160 | the accumulated token is the file with every '\n' removed; the loop invariant keeps the capacity at least total_len + 1 and the first NUL of the buffer at total_len |
| TokenReader.NulFreeAfterRemoval | xsa.c:162 | the text read of a NUL-free file is NUL-free, so its `strlen` is its length |
| TokenReader.TokenEvents | xsa.c:135-168 | an unopenable file logs only its error; the decoder is reported exactly when the file opens and holds a byte other than '\n' |
| TokenReader.ReadAndProcessToken | xsa.c:135-168 | the method logs TokenEvents of the file |
| Walker.Targets | xsa.c:170-200 | the actions of a scan: one failure when the directory does not open, otherwise those of its entries in `readdir` order; ReadsOnlyTokenFiles and ReadsEveryTokenFile characterise its file reads, and UnopenableSubdirectory the failure of one subdirectory |
| Walker.ChildTargets | xsa.c:181-197 | the actions of the entries from the i-th on, in order; InChildTargets and NextEntry state its properties |
| Walker.Visit | xsa.c:182-196 | one entry: "." and ".." are skipped, so are lstat failures and kinds other than directory and regular file; a directory is scanned under its path, and a regular file named "token" is read |
| Walker.Run | xsa.c:170-200 | each action logs at most one event, the directory error or TokenEvents of the file; RunAppend states that logs concatenate |
| Walker.InChildTargets | xsa.c:181-197 | an action of the entries from i on comes from one of those entries |
| Walker.ReadsOnlyTokenFiles | xsa.c:170-200 | soundness: every file read is a regular file named "token", reached from the root through openable lstat directories other than "." and ".."; its path extends the root's path |
| Walker.ReadsEveryTokenFile | xsa.c:170-200 | completeness: every such file is read under its path, whatever its siblings are |
| Walker.UnopenableSubdirectory | xsa.c:176-179 | a subdirectory that does not open logs one line, nothing below it, and the entries after it are still visited |
| Walker.RunAppend | xsa.c:181-197 | the log of consecutive actions is the concatenation of their logs |
| Walker.NextEntry | xsa.c:181-197 | the log of the entries from i on is entry i's log followed by the rest |
| Walker.TraverseDirectory | xsa.c:170-200 | the method logs Run(Targets(dir, path)): the readdir loop with recursion into subdirectories |
| Walker.VisitEntry | xsa.c:182-196 | one loop pass logs Run(Visit(entry, path)): it skips "." and "..", lstat failures and other kinds, descends into directories and reads regular files named "token" |

## Left out

- `main` and its argument, environment and log-file handling are not modelled.
- The formatting and output of `log_printf` are not modelled. Each report is a
  `Log.Event` value, in order. Most reports are one line; a found name is two lines
  (xsa.c:120-121), the name and the token, which form one `Decoded(Found(..))`
  event.
- `opendir`, `readdir`, `lstat`, `fopen` and `fgets` are abstract inputs.
  - A directory is a `Walker.Entry` with its kind, whether it opens, and its
    children in `readdir` order.
  - A file is a `TokenReader.File` with whether it opens and its bytes.
  - `lstat` never follows a symbolic link, so a link appears as a kind other than
    a directory or a regular file.
- Paths are sequences of entry names rather than `"%s/%s"` text. The truncation of
  `snprintf` at 1024 bytes is not modelled.
- `malloc`, `free` and `strdup` bookkeeping is not modelled, and neither is an
  allocation that fails.
  - `Realloc` always succeeds; a failing `realloc` would lose the buffer.
  - The reader's buffer is modelled, because its capacity is what the invariant is
    about.
- TokenReader.ReadToken, TokenReader.ReadAndProcessToken, Walker.TraverseDirectory
  and Walker.VisitEntry require files without NUL bytes. On a chunk that starts with
  NUL, `buffer[len - 1]` would read before the buffer.
- Base64.Decode and Base64.DecodeSpec require a non-negative output length. This
  excludes only the inputs "=" and "==". For both, the output length is -1, so
  `malloc` gets size 0 and the terminator is written at index -1, before the buffer.
  The decoder's only caller never passes them (`Jwt.PaddedShape`). The input is
  also taken to be NUL-free, as the contents of a C string are. On a sequence that
  holds a NUL, the model returns None, because the table maps NUL to -1. `strlen`
  at xsa.c:33 would instead stop there and decode only the bytes before it.
- Jwt.DecodeOutcome, Jwt.DecodeJwtAndExtractName and Jwt.ServiceAccountToken
  read every byte of the token. On a token holding a NUL, `strdup` and `strtok_r`
  would see only the bytes before it. Every caller passes a NUL-free token
  (`TokenReader.NulFreeAfterRemoval`).
- The `filepath` argument of `decode_jwt_and_extract_name` is never used, so it is
  not modelled.
- `strtok_r` works on a copy of the token, so the model reads the token's bytes
  directly. The token handed to the decoder has no NUL.
- `int` width is not modelled. `input_len` and `input_len * 3` (xsa.c:33, 43) and
  `payload_len` (xsa.c:106) are `int`. They overflow for inputs above about 715
  million or 2 billion characters. The model's lengths are unbounded.
- `char` is taken to be signed, as on the usual x86 and x86-64 ABIs. The table
  values -1 and -2 are `0xFF` and `0xFE`, and `Sar` shifts arithmetically. The
  signedness of `char` is implementation-defined. Where it is unsigned, `a == -1` at
  xsa.c:53 never holds, no input is rejected, and the shifts are logical.
  The left shifts `a << 2`, `b << 4` and `c << 6` at xsa.c:58-60 are undefined
  behaviour in ISO C before C23 when the value is negative, which is the case for
  -2, the table value of '='. The model takes the two's-complement result, and
  `Base64.OnlyPaddingDecodes` ("====" decodes to 0xFF) rests on that. The case
  arises only for a '=' inside the payload. With the padding the caller appends,
  the guarded assignments never execute a left shift of a negative value.

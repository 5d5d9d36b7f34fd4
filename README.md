# Cube Encryptor cipher, in Dafny

A model of the cipher at the heart of the Cube Encryptor module (`Main.java`):
a substitution in the style of a Polybius square in which the key alphabet is
laid out on "cubes" of six faces.

- **sanitizeKey** turns the user's key into an alphabet. It keeps the first
  occurrence of each character, then appends every printable ASCII character
  (32..126) still missing, in ascending order.
- **generateCubes** cuts the alphabet into consecutive cubes of six
  one-character faces, and pads the last cube with spaces.
- **findCoordinates** writes a character as a code: its 1-based cube number
  in `%02d`, then a face label `L1 C1 C2 C3 R1 R2`. A character no face
  holds becomes `"??"`.
- **findCharacter** reads a code back; any failure becomes `'?'`.
- **encrypt** joins the codes of a text with single spaces and trims the
  result.
- **decrypt** splits on `" "` with Java's `String.split` rules and decodes
  each token.
- The Encrypt and Decrypt buttons sanitize the key field, then call encrypt
  or decrypt.

Modules, one per concern:

- `JavaText` (JavaText.dfy) models what the cipher uses from the Java
  library, plus a few general sequence facts the other modules share
  (first occurrence, distinct elements, `Option`):
  - Java `char` as a UTF-16 code unit (`CodeUnit`, 0..65535) and `String`
    as a sequence of them (`Str`);
  - `trim`;
  - tokens appended with a space after each, as a `StringBuilder` fills;
  - `split(" ")`.
- `KeySanitizer` (KeySanitizer.dfy) models `sanitizeKey`, a method with its
  two loops, specified by the function `Sanitized`.
- `CubeLayout` (CubeLayout.dfy) models `generateCubes`. It is a method with
  the nested loops and a six-slot array per cube, specified by the function
  `Partition`.
- `CoordinateCodec` (CoordinateCodec.dfy) models the codec:
  - `findCoordinates` is a method with the nested search loop and early
    return, specified by the function `Coordinate`;
  - `findCharacter` is a function, because the source is straight-line
    code.
- `Cipher` (Cipher.dfy) models `encrypt` and `decrypt` as methods with their
  loops, specified by `Encrypted` and `Decrypted`, plus the two buttons.

Where the program's own description and its code differ, the model follows
the code:

- A sanitized key is at least 95 characters long, and exactly 95 only when
  every key character is printable ASCII. Any other characters stay in it.
- Every code whose length is not 4 decodes to `'?'`, not only codes shorter
  than 3. A 3-character code leaves a one-character label, which no label
  matches.
- `encrypt` and `decrypt` use the key as given. Only the buttons sanitize it.
- With the empty key, `"A"` is at alphabet position 33 (cube 6, face 3), so
  it encrypts to `"06C3"`.
- `trim` removes every code unit up to U+0020 from both ends of the string,
  not only trailing spaces.
- The codec round trip does not need a duplicate-free key. The first face
  that matches a character holds exactly that character, so the code decodes
  back to it. All it needs is at most 99 cubes.

## Model

| member | source | states |
|---|---|---|
| JavaText.TrimEnd | Main.java:270 | the result is a prefix of the input and ends with a code unit above U+0020; every dropped code unit is at most U+0020 |
| JavaText.TrimStart | Main.java:270 | the result is a suffix of the input and starts with a code unit above U+0020; every dropped code unit is at most U+0020 |
| JavaText.Trim | Main.java:270 | String.trim: the result is no longer than the input, starts and ends with code units above U+0020, and is empty exactly when every code unit is at most U+0020 |
| JavaText.TrimTrailingSpace | Main.java:270 | trimming a string that starts and ends with visible code units, plus one trailing space, gives back the string |
| JavaText.TerminatedJoin | Main.java:265-268 | appending each token and then a space equals the tokens joined by single spaces plus one trailing space |
| JavaText.JoinEnds | Main.java:267-270 | a join of non-empty tokens starts with the first token's first code unit and ends with the last token's last code unit |
| JavaText.RawSplit | Main.java:280 | the pieces between spaces: at least one piece, and none contains a space |
| JavaText.JoinRawSplit | Main.java:280 | joining the pieces with single spaces restores the string |
| JavaText.RawSplitJoin | Main.java:280 | splitting the join of space-free tokens gives back the tokens |
| JavaText.SplitOnSpace | Main.java:280 | split(" ") yields space-free tokens, and the last token of a non-empty string is non-empty (trailing empties dropped) |
| JavaText.SplitJoin | Main.java:280 | split(" ") inverts joining non-empty, space-free tokens with single spaces |
| JavaText.SplitEmpty | Main.java:280 | "" splits to the single token "" |
| JavaText.SplitOnlySpaces | Main.java:280 | a string made only of spaces splits to no tokens |
| JavaText.FirstIndex | Main.java:162-167 | the index returned holds x, and no earlier index does |
| JavaText.FirstIndexUnique | Main.java:162-167 | any index that holds x with no x before it is the first occurrence |
| KeySanitizer.FirstIndexExtend | Main.java:162-167 | appending a code unit keeps the first occurrence of every code unit already present, and a new one first occurs at the end |
| JavaText.DistinctCount | Main.java:158-174 | a duplicate-free string has as many distinct elements as code units |
| KeySanitizer.Dedup | Main.java:162-167 | the first pass keeps no repeats and exactly the code units of the key |
| KeySanitizer.DedupStep | Main.java:162-167 | one turn of the first loop: the next code unit joins the seen set, and is appended exactly when it was not seen before |
| KeySanitizer.DedupOrder | Main.java:162-167 | the first pass lists the distinct code units in the order of their first occurrences in the key |
| KeySanitizer.DedupPrefix | Main.java:162-167 | the first pass over a prefix of the key is a prefix of the first pass over the whole key |
| KeySanitizer.DedupDistinct | Main.java:162-167 | the first pass leaves a key without repeats unchanged |
| KeySanitizer.MissingMembers | Main.java:170-174 | the second pass appends exactly the printable ASCII code units not in the key, in strictly ascending order |
| KeySanitizer.NothingMissing | Main.java:170-174 | when the key already holds every printable ASCII code unit, the second pass appends nothing |
| KeySanitizer.PrintableAscii | Main.java:170 | the code units the second loop walks, 32..126 in ascending order, are 95 |
| KeySanitizer.SanitizeKey | Main.java:157-178 | the two loops return the distinct key code units followed by the missing printable ones; no repeats; every printable ASCII code unit is present |
| KeySanitizer.SanitizedIsAlphabet | Main.java:158-174 | the sanitized key has no repeats, and holds a code unit exactly when the input has it or it is printable ASCII |
| KeySanitizer.PrintableSetSize | Main.java:170 | the set of those code units holds exactly 32..126 and has 95 elements |
| KeySanitizer.SanitizedLength | Main.java:158-174 | the length is the number of distinct input code units plus the printable ones the input lacks, so at least 95 |
| KeySanitizer.SanitizedEmpty | Main.java:162-174 | the empty key sanitizes to exactly 32..126 in ascending order, 95 code units |
| KeySanitizer.SanitizeIdempotent | Main.java:157-178 | sanitizing a sanitized key changes nothing |
| CubeLayout.PartitionShape | Main.java:190-199 | ceil(\|key\|/6) cubes of six faces; face j of cube i is key[6i+j], or " " past the end of the key |
| CubeLayout.PartitionCell | Main.java:190-199 | the face of the cube for one position inside the key holds that position's code unit |
| CubeLayout.PartitionWellShaped | Main.java:190-199 | every generated cube has six one-code-unit faces |
| CubeLayout.GenerateCubes | Main.java:183-207 | the nested loops build ceil(\|key\|/6) cubes whose faces hold the key in order, padded with " " |
| CoordinateCodec.FaceLabel | Main.java:219-227 | faces 0..5 get two-character labels of visible code units; any other face gets "" |
| CoordinateCodec.LabelFace | Main.java:243-251 | the label switch of findCharacter: a face it yields is one of 0..5 and its label is exactly the two-character input |
| CoordinateCodec.LabelsAreBijective | Main.java:219-251 | the label switch of findCoordinates and that of findCharacter are inverse: each label names its face, and only the six labels name a face |
| CoordinateCodec.Decimal | Main.java:228 | decimal digits of n: one digit iff n < 10, at most two iff n < 100 |
| CoordinateCodec.FormatTwoDigits | Main.java:228 | %02d gives at least two ASCII digits, and exactly two iff n < 100 |
| CoordinateCodec.ParseTwoDigits | Main.java:240 | parseInt on two code units succeeds iff the second is a digit and the first is a digit or a sign; the value lies in -9..99 and is at most 0 after '-' |
| CoordinateCodec.FormatThenParse | Main.java:228-240 | parsing the %02d form of 1..99 gives the number back |
| CoordinateCodec.FaceIndex | Main.java:215-216 | the first face of a cube equal to the one-character string, or none iff no face is |
| CoordinateCodec.Locate | Main.java:213-232 | none iff no cube has a face equal to the character; otherwise the first match in cube-then-face order |
| CoordinateCodec.FirstMatchUnique | Main.java:213-229 | there is only one first match |
| CoordinateCodec.Render | Main.java:228 | a code starts with a digit, has at least two code units and contains no code unit up to U+0020 |
| CoordinateCodec.Coordinate | Main.java:212-233 | a code is at least two visible code units, and it is "??" exactly when no face holds the character |
| CoordinateCodec.FindCoordinates | Main.java:212-233 | the nested search returns the code of the first match, or "??" |
| CoordinateCodec.FindCharacter | Main.java:238-256 | '?' for every length other than 4, for a failed number parse and for an unknown label; otherwise the first code unit of the named face when the cube and face exist and the face is non-empty, else '?' |
| CoordinateCodec.SignedCodeFails | Main.java:240-255 | a code led by '-' always decodes to '?' |
| CoordinateCodec.CoordinateRoundTrip | Main.java:212-256 | with six one-character faces per cube and at most 99 cubes, every character some face holds decodes back from its code |
| CoordinateCodec.WideCubeNumberFails | Main.java:228-240 | a character first found in cube 100 or later has a code of five or more code units, which decodes to '?' |
| CoordinateCodec.LocateInPartition | Main.java:190-232 | the first occurrence of a character at key position i is found at cube i/6, face i%6; padding never comes first |
| CoordinateCodec.NoEarlierMatch | Main.java:190-216 | a face before the first occurrence of a character holds a different character |
| CoordinateCodec.KeyRoundTrip | Main.java:183-256 | every character of a key of at most 594 characters (99 cubes) decodes back from its code, whether or not the key repeats characters |
| Cipher.Codes | Main.java:265-268 | one code per character of the text, in order |
| Cipher.TrimJoin | Main.java:267-270 | trim removes exactly the trailing space the loop leaves after the joined codes |
| Cipher.EncryptFinish | Main.java:265-270 | trimming what the encrypt loop builds gives the codes joined by single spaces |
| Cipher.Encrypt | Main.java:261-271 | encrypt returns the codes of the text joined by single spaces |
| Cipher.Decrypt | Main.java:276-287 | decrypt returns one character per token of split(" "), each the decoding of its token |
| Cipher.EncryptAction | Main.java:79-81 | the Encrypt button encrypts with the sanitized key |
| Cipher.DecryptAction | Main.java:89-91 | the Decrypt button decrypts with the sanitized key |
| Cipher.CodesAreTokens | Main.java:265-268 | every code is non-empty and free of spaces and other code units up to U+0020 |
| Cipher.EncryptedTokens | Main.java:261-271 | the empty text encrypts to ""; a non-empty text encrypts to a string with no space at either end whose split(" ") is exactly its codes |
| Cipher.DecryptEncrypt | Main.java:261-287 | decrypt undoes encrypt for a non-empty text whose characters all occur in a key of at most 99 cubes |
| Cipher.EmptyTextDoesNotRoundTrip | Main.java:261-287 | "" encrypts to "" but "" decrypts to "?" |
| Cipher.SanitizedKeyCoversPrintable | Main.java:157-233 | under a sanitized key no printable ASCII character encodes to "??" |
| Cipher.ButtonsRoundTrip | Main.java:79-91 | with one key field, Decrypt undoes Encrypt for a non-empty text of key or printable ASCII characters while the sanitized key fills at most 99 cubes |
| Cipher.EmptyKeyCubes | Main.java:157-207 | the empty key gives 16 cubes, the last holding 'z' '{' '\|' '}' '~' and one padding space |
| Cipher.EmptyKeyFirstA | Main.java:162-174 | the empty key's alphabet has its first 'A' at position 33 |
| Cipher.EmptyKeyEncryptsA | Main.java:157-271 | with the empty key "A" encrypts to "06C3" |
| Cipher.UnknownFaceDecrypts | Main.java:238-287 | "99ZZ" names no face and decrypts to "?" under any key |

## Left out

- The Swing window, text areas, buttons and listeners (Main.java:23-102) are left out. The two listeners are modelled only as `EncryptAction` and `DecryptAction`: sanitize, then encrypt or decrypt.
- The module lifecycle (`start`, `bringToFront`, `hideModule`, `showModule`, `isVisible`, `onClose`) and the host calls into `DesktopModule` and `BottomBarPanel` are left out. Their code is not part of this model.
- The `System.out.println` logging and the `main` launcher are left out. They are I/O that does not affect any result.
- FormatTwoDigits: `String.format` uses the default format locale, whose zero digit replaces '0' in the digits and the padding. The model assumes a locale whose zero digit is '0', so codes are ASCII digits.
- ParseTwoDigits: `Integer.parseInt` also accepts non-ASCII Unicode decimal digits. The model accepts only the ASCII digits and an optional `+` or `-` sign.
- GenerateCubes: each cube is filled in a fresh six-slot array, as in the source. The `ArrayList` of cubes is a sequence of the arrays' contents, so later writes through a shared array are not modelled. No code in the core makes such writes.
- SanitizeKey: the `LinkedHashSet` is modelled as a set. Only its membership test is used.

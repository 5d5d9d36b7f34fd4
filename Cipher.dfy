/** `encrypt` and `decrypt`: a text becomes the codes of its code units
    separated by single spaces, and a string of codes is split on spaces and
    read back one code unit per token. Both take the key as given; the two
    buttons of the window sanitize the key first. */
module Cipher {
  import opened JavaText
  import opened KeySanitizer
  import opened CubeLayout
  import opened CoordinateCodec

  /** The code of each code unit of text, in order. */
  function Codes(text: Str, cubes: seq<Cube>): (r: seq<Str>)
    ensures |r| == |text|
    ensures forall k :: 0 <= k < |text| ==> r[k] == Coordinate(text[k], cubes)
    decreases |text|
  {
    if text == [] then []
    else Codes(text[..|text| - 1], cubes) + [Coordinate(text[|text| - 1], cubes)]
  }

  /** What encrypt returns: the codes of the text under the cubes of key,
      joined by single spaces. */
  function Encrypted(text: Str, key: Str): Str {
    Join(Codes(text, Partition(key)))
  }

  /** What decrypt returns: one code unit per token of split(" "). */
  function Decrypted(encryptedText: Str, key: Str): (r: Str) {
    var codes := SplitOnSpace(encryptedText);
    seq(|codes|, k requires 0 <= k < |codes| => FindCharacter(codes[k], Partition(key)))
  }

  lemma CodesStep(text: Str, i: nat, cubes: seq<Cube>)
    requires i < |text|
    ensures Codes(text[..i + 1], cubes) == Codes(text[..i], cubes) + [Coordinate(text[i], cubes)]
  {
    assert text[..i + 1][..i] == text[..i];
  }

  /** Trimming the codes joined by spaces, plus the trailing space encrypt
      leaves, gives the join. */
  lemma TrimJoin(codes: seq<Str>)
    requires codes != []
    requires forall k :: 0 <= k < |codes| ==> codes[k] != [] && forall j :: 0 <= j < |codes[k]| ==> codes[k][j] > Space
    ensures Trim(Join(codes) + [Space]) == Join(codes)
  {
    JoinEnds(codes);
    TrimTrailingSpace(Join(codes));
  }

  /** Trimming what the loop of encrypt builds gives the join of the codes. */
  lemma EncryptFinish(text: Str, cubes: seq<Cube>)
    ensures Trim(Terminated(Codes(text, cubes))) == Join(Codes(text, cubes))
  {
    var codes := Codes(text, cubes);
    if text != [] {
      TerminatedJoin(codes);
      CodesAreTokens(text, cubes);
      TrimJoin(codes);
    }
  }

  /** encrypt: append each code and a space, then trim. */
  method Encrypt(text: Str, key: Str) returns (encryptedText: Str)
    ensures encryptedText == Encrypted(text, key)
  {
    var cubes := GenerateCubes(key);
    var sb: Str := [];
    var i := 0;
    while i < |text|
      invariant 0 <= i <= |text|
      invariant sb == Terminated(Codes(text[..i], cubes))
    {
      var letter := text[i];
      var encrypted := FindCoordinates(letter, cubes);
      CodesStep(text, i, cubes);
      TerminatedAppend(Codes(text[..i], cubes), encrypted);
      sb := sb + encrypted + [Space];
      i := i + 1;
    }
    assert text[..i] == text;
    EncryptFinish(text, cubes);
    encryptedText := Trim(sb);
  }

  /** decrypt: split on " " and append the code unit of each token. */
  method Decrypt(encryptedText: Str, key: Str) returns (decryptedText: Str)
    ensures decryptedText == Decrypted(encryptedText, key)
    ensures |decryptedText| == |SplitOnSpace(encryptedText)|
  {
    var cubes := GenerateCubes(key);
    var sb: Str := [];
    var codes := SplitOnSpace(encryptedText);
    var k := 0;
    while k < |codes|
      invariant 0 <= k <= |codes|
      invariant |sb| == k
      invariant forall t :: 0 <= t < k ==> sb[t] == FindCharacter(codes[t], cubes)
    {
      var decrypted := FindCharacter(codes[k], cubes);
      sb := sb + [decrypted];
      k := k + 1;
    }
    decryptedText := sb;
  }

  /** The Encrypt button: sanitize the key field, then encrypt the input. */
  method EncryptAction(keyText: Str, inputText: Str) returns (output: Str)
    ensures output == Encrypted(inputText, Sanitized(keyText))
  {
    var key := SanitizeKey(keyText);
    output := Encrypt(inputText, key);
  }

  /** The Decrypt button: sanitize the key field, then decrypt the input. */
  method DecryptAction(keyText: Str, inputText: Str) returns (output: Str)
    ensures output == Decrypted(inputText, Sanitized(keyText))
  {
    var key := SanitizeKey(keyText);
    output := Decrypt(inputText, key);
  }

  // ---------------------------------------------------------------------
  // Properties.
  // ---------------------------------------------------------------------

  /** Every code is non-empty and free of code units <= U+0020. */
  lemma CodesAreTokens(text: Str, cubes: seq<Cube>)
    ensures forall k :: 0 <= k < |text| ==>
      Codes(text, cubes)[k] != [] &&
      forall j :: 0 <= j < |Codes(text, cubes)[k]| ==> Codes(text, cubes)[k][j] > Space
    ensures forall t :: t in Codes(text, cubes) ==> t != [] && Space !in t
  {
  }

  /** A non-empty text encrypts to exactly one space-free token per code
      unit, with no space at either end; the empty text encrypts to "". */
  lemma EncryptedTokens(text: Str, key: Str)
    ensures text == [] ==> Encrypted(text, key) == []
    ensures text != [] ==> SplitOnSpace(Encrypted(text, key)) == Codes(text, Partition(key))
    ensures text != [] ==>
      (Encrypted(text, key) != [] &&
       Encrypted(text, key)[0] != Space && Encrypted(text, key)[|Encrypted(text, key)| - 1] != Space)
  {
    if text != [] {
      var codes := Codes(text, Partition(key));
      CodesAreTokens(text, Partition(key));
      SplitJoin(codes);
      JoinEnds(codes);
    }
  }

  /** Decrypting the encryption of a non-empty text gives the text back,
      when every code unit of the text is in the key and the key fills at
      most 99 cubes. The key may repeat code units. */
  lemma DecryptEncrypt(text: Str, key: Str)
    requires text != []
    requires forall k :: 0 <= k < |text| ==> text[k] in key
    requires |key| <= 99 * CubeSize
    ensures Decrypted(Encrypted(text, key), key) == text
  {
    var cubes := Partition(key);
    EncryptedTokens(text, key);
    forall k | 0 <= k < |text|
      ensures FindCharacter(Codes(text, cubes)[k], cubes) == text[k]
    {
      KeyRoundTrip(text[k], key);
    }
  }

  /** "" encrypts to "", and "" decrypts to "?": the round trip fails for
      the empty text. */
  lemma EmptyTextDoesNotRoundTrip(key: Str)
    ensures Encrypted([], key) == []
    ensures Decrypted([], key) == [QuestionMark]
  {
    SplitEmpty();
  }

  /** Under a sanitized key no printable ASCII code unit encodes to "??". */
  lemma SanitizedKeyCoversPrintable(keyText: Str, c: CodeUnit)
    requires IsPrintableAscii(c)
    ensures Coordinate(c, Partition(Sanitized(keyText))) != NotFound
  {
    var key := Sanitized(keyText);
    SanitizedIsAlphabet(keyText);
    assert c in key;
    var i :| 0 <= i < |key| && key[i] == c;
    PartitionCell(key, i / CubeSize, i % CubeSize);
  }

  /** What the two buttons do with one key field: for a non-empty text of
      printable ASCII code units or code units of the key field, Decrypt
      undoes Encrypt as long as the sanitized key fills at most 99 cubes. */
  lemma ButtonsRoundTrip(keyText: Str, text: Str)
    requires text != []
    requires forall k :: 0 <= k < |text| ==> text[k] in keyText || IsPrintableAscii(text[k])
    requires |Sanitized(keyText)| <= 99 * CubeSize
    ensures Decrypted(Encrypted(text, Sanitized(keyText)), Sanitized(keyText)) == text
  {
    SanitizedIsAlphabet(keyText);
    DecryptEncrypt(text, Sanitized(keyText));
  }

  /** With the empty key there are 16 cubes, the last holding 'z' '{' '|'
      '}' '~' and one padding space. */
  lemma EmptyKeyCubes(key: Str)
    requires key == Sanitized([])
    ensures |Partition(key)| == 16
    ensures Partition(key)[15] == [[122], [123], [124], [125], [126], [Space]]
  {
    SanitizedEmpty();
    PartitionShape(key);
    var last := Partition(key)[15];
    assert last[0] == Cell(key, 90) && last[1] == Cell(key, 91) && last[2] == Cell(key, 92);
    assert last[3] == Cell(key, 93) && last[4] == Cell(key, 94) && last[5] == Cell(key, 95);
  }

  /** With the empty key "A" encrypts to "06C3": 'A' sits at position 33,
      which is cube 6, face 3. */
  lemma EmptyKeyEncryptsA(key: Str)
    requires key == Sanitized([])
    ensures Encrypted(['A' as int], key) == ['0' as int, '6' as int, 'C' as int, '3' as int]
  {
    EmptyKeyFirstA(key);
    LocateInPartition(key, 33);
    var code := Coordinate('A' as int, Partition(key));
    assert code == FormatTwoDigits(6) + FaceLabel(3);
    assert Codes(['A' as int], Partition(key)) == [code];
  }

  /** Position 33 of the empty key's sanitization is the first 'A'. */
  lemma EmptyKeyFirstA(key: Str)
    requires key == Sanitized([])
    ensures 33 < |key| && key[33] == 'A' as int && key[33] !in key[..33]
  {
    SanitizedEmpty();
    var p := PrintableAscii();
    assert p[33] == 'A' as int;
    assert forall k :: 0 <= k < 33 ==> p[..33][k] == p[k] < 'A' as int;
  }

  /** "99ZZ" names no face, so it decrypts to "?" under any key. */
  lemma UnknownFaceDecrypts(key: Str)
    ensures Decrypted(['9' as int, '9' as int, 'Z' as int, 'Z' as int], key) == [QuestionMark]
  {
    var code: Str := ['9' as int, '9' as int, 'Z' as int, 'Z' as int];
    assert Space !in code;
    assert LabelFace(code[2..]).None?;
  }
}

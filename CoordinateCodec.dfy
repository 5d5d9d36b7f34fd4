/** `findCoordinates` and `findCharacter`: a code unit's place among the
    cubes, written as a two-digit cube number and a face label ("03C2"), and
    the way back. */
module CoordinateCodec {
  import opened JavaText
  import opened CubeLayout

  /** A 0-based cube index and a 0-based face index. */
  datatype Position = Position(cube: nat, face: nat)

  const Zero: CodeUnit := '0' as int
  const Plus: CodeUnit := '+' as int
  const Minus: CodeUnit := '-' as int

  /** What findCoordinates returns for a code unit that no face holds. */
  const NotFound: Str := [QuestionMark, QuestionMark]

  predicate IsAsciiDigit(c: CodeUnit) {
    Zero <= c <= '9' as int
  }

  function Digit(d: nat): (r: CodeUnit)
    requires d < 10
  {
    Zero + d
  }

  // ---------------------------------------------------------------------
  // Face labels: 0 = L1, 1 = C1, 2 = C2, 3 = C3, 4 = R1, 5 = R2.
  // ---------------------------------------------------------------------

  /** The label findCoordinates gives a face; the switch's default branch
      yields the empty string. */
  function FaceLabel(face: nat): (r: Str)
    ensures |r| == if face < CubeSize then 2 else 0
    ensures forall k :: 0 <= k < |r| ==> r[k] > Space
  {
    if face == 0 then ['L' as int, '1' as int]
    else if face == 1 then ['C' as int, '1' as int]
    else if face == 2 then ['C' as int, '2' as int]
    else if face == 3 then ['C' as int, '3' as int]
    else if face == 4 then ['R' as int, '1' as int]
    else if face == 5 then ['R' as int, '2' as int]
    else []
  }

  /** The face findCharacter reads from a label, None for any other string. */
  function LabelFace(name: Str): (r: Option<nat>)
    ensures r.Some? ==> r.value < CubeSize && |name| == 2 && FaceLabel(r.value) == name
  {
    if name == FaceLabel(0) then Some(0)
    else if name == FaceLabel(1) then Some(1)
    else if name == FaceLabel(2) then Some(2)
    else if name == FaceLabel(3) then Some(3)
    else if name == FaceLabel(4) then Some(4)
    else if name == FaceLabel(5) then Some(5)
    else None
  }

  /** The six labels are two code units each and name their faces both
      ways round. */
  lemma LabelsAreBijective(face: nat, name: Str)
    ensures face < CubeSize ==> |FaceLabel(face)| == 2 && LabelFace(FaceLabel(face)) == Some(face)
    ensures LabelFace(name) == Some(face) ==> face < CubeSize && FaceLabel(face) == name
    ensures LabelFace(name).Some? ==> |name| == 2
  {
  }

  // ---------------------------------------------------------------------
  // String.format("%02d", n) and Integer.parseInt on two code units.
  // ---------------------------------------------------------------------

  /** The decimal digits of n, without leading zeros. */
  function Decimal(n: nat): (r: Str)
    ensures 1 <= |r|
    ensures forall k :: 0 <= k < |r| ==> IsAsciiDigit(r[k])
    ensures n < 10 <==> |r| == 1
    ensures n < 100 <==> |r| <= 2
    decreases n
  {
    if n < 10 then [Digit(n)] else Decimal(n / 10) + [Digit(n % 10)]
  }

  /** String.format("%02d", n): at least two digits, zero-padded. */
  function FormatTwoDigits(n: nat): (r: Str)
    ensures |r| >= 2 && forall k :: 0 <= k < |r| ==> IsAsciiDigit(r[k])
    ensures |r| == 2 <==> n < 100
  {
    if n < 10 then [Zero, Digit(n)] else Decimal(n)
  }

  /** Integer.parseInt on a two-code-unit string: an optional sign followed
      by one digit, or two digits; anything else is a NumberFormatException
      (None). Only ASCII digits are modelled. */
  function ParseTwoDigits(s: Str): (r: Option<int>)
    requires |s| == 2
    ensures r.Some? <==> IsAsciiDigit(s[1]) && (IsAsciiDigit(s[0]) || s[0] == Plus || s[0] == Minus)
    ensures r.Some? ==> -9 <= r.value <= 99
    ensures r.Some? && s[0] == Minus ==> r.value <= 0
  {
    if (s[0] == Plus || s[0] == Minus) && IsAsciiDigit(s[1]) then
      Some(if s[0] == Minus then Zero - s[1] else s[1] - Zero)
    else if IsAsciiDigit(s[0]) && IsAsciiDigit(s[1]) then
      Some(10 * (s[0] - Zero) + (s[1] - Zero))
    else None
  }

  /** Reading back a formatted number 1..99 gives the number. */
  lemma FormatThenParse(n: nat)
    requires 1 <= n <= 99
    ensures |FormatTwoDigits(n)| == 2
    ensures ParseTwoDigits(FormatTwoDigits(n)) == Some(n)
  {
    if n >= 10 {
      assert Decimal(n) == [Digit(n / 10), Digit(n % 10)];
    }
  }

  // ---------------------------------------------------------------------
  // findCoordinates: first match in cube order, then face order.
  // ---------------------------------------------------------------------

  /** The first face of cube holding exactly [letter]. */
  function FaceIndex(letter: CodeUnit, cube: Cube): (r: Option<nat>)
    ensures r.None? <==> [letter] !in cube
    ensures r.Some? ==> r.value < |cube| && cube[r.value] == [letter]
    ensures r.Some? ==> forall f :: 0 <= f < r.value ==> cube[f] != [letter]
    decreases |cube|
  {
    if cube == [] then None
    else if cube[0] == [letter] then Some(0)
    else match FaceIndex(letter, cube[1..])
      case None => None
      case Some(f) => Some(f + 1)
  }

  /** p is where findCoordinates stops for letter: the face holds [letter],
      no earlier cube holds it, and no earlier face of that cube does. */
  predicate IsFirstMatch(letter: CodeUnit, cubes: seq<Cube>, p: Position) {
    && p.cube < |cubes| && p.face < |cubes[p.cube]|
    && cubes[p.cube][p.face] == [letter]
    && (forall c :: 0 <= c < p.cube ==> [letter] !in cubes[c])
    && (forall f :: 0 <= f < p.face ==> cubes[p.cube][f] != [letter])
  }

  function Locate(letter: CodeUnit, cubes: seq<Cube>): (r: Option<Position>)
    ensures r.None? <==> forall c :: 0 <= c < |cubes| ==> [letter] !in cubes[c]
    ensures r.Some? ==> IsFirstMatch(letter, cubes, r.value)
    decreases |cubes|
  {
    if cubes == [] then None
    else match FaceIndex(letter, cubes[0])
      case Some(f) => Some(Position(0, f))
      case None =>
        match Locate(letter, cubes[1..])
        case None => None
        case Some(p) => Some(Position(p.cube + 1, p.face))
  }

  /** There is only one first match. */
  lemma FirstMatchUnique(letter: CodeUnit, cubes: seq<Cube>, p: Position, q: Position)
    requires IsFirstMatch(letter, cubes, p) && IsFirstMatch(letter, cubes, q)
    ensures p == q
  {
  }

  /** The code of a position: 1-based cube number, "%02d", then the label. */
  function Render(p: Position): (r: Str)
    ensures |r| >= 2 && IsAsciiDigit(r[0])
    ensures forall k :: 0 <= k < |r| ==> r[k] > Space
  {
    var number, name := FormatTwoDigits(p.cube + 1), FaceLabel(p.face);
    assert forall k :: 0 <= k < |number| + |name| ==> (number + name)[k] in number || (number + name)[k] in name;
    number + name
  }

  /** What findCoordinates returns. */
  function Coordinate(letter: CodeUnit, cubes: seq<Cube>): (r: Str)
    ensures |r| >= 2 && forall k :: 0 <= k < |r| ==> r[k] > Space
    ensures r == NotFound <==> Locate(letter, cubes).None?
  {
    match Locate(letter, cubes)
    case None => NotFound
    case Some(p) => Render(p)
  }

  /** findCoordinates: scan cubes, then faces, and return at the first face
      equal to String.valueOf(letter). */
  method FindCoordinates(letter: CodeUnit, cubes: seq<Cube>) returns (code: Str)
    ensures code == Coordinate(letter, cubes)
  {
    var cubeNumber := 0;
    while cubeNumber < |cubes|
      invariant 0 <= cubeNumber <= |cubes|
      invariant forall c :: 0 <= c < cubeNumber ==> [letter] !in cubes[c]
    {
      var cube := cubes[cubeNumber];
      var index := 0;
      while index < |cube|
        invariant 0 <= index <= |cube|
        invariant forall f :: 0 <= f < index ==> cube[f] != [letter]
      {
        if cube[index] == [letter] {
          var p := Position(cubeNumber, index);
          FirstMatchUnique(letter, cubes, p, Locate(letter, cubes).value);
          code := FormatTwoDigits(cubeNumber + 1) + FaceLabel(index);
          return;
        }
        index := index + 1;
      }
      cubeNumber := cubeNumber + 1;
    }
    code := NotFound;
  }

  // ---------------------------------------------------------------------
  // findCharacter: every exception is caught and becomes '?'.
  // ---------------------------------------------------------------------

  /** What findCharacter returns for a code: the first code unit of the face
      it names, or '?' when the code is too short, its first two code units
      are not a number, its rest is not a label, the cube number is outside
      1..|cubes|, or the face is missing or empty. */
  function FindCharacter(code: Str, cubes: seq<Cube>): (r: CodeUnit)
    ensures |code| != 4 ==> r == QuestionMark
    ensures |code| == 4 && ParseTwoDigits(code[..2]).None? ==> r == QuestionMark
    ensures |code| == 4 && LabelFace(code[2..]).None? ==> r == QuestionMark
    ensures |code| == 4 && ParseTwoDigits(code[..2]).Some? && LabelFace(code[2..]).Some? ==>
      var number, face := ParseTwoDigits(code[..2]).value, LabelFace(code[2..]).value;
      r == if 1 <= number <= |cubes| && face < |cubes[number - 1]| && cubes[number - 1][face] != []
           then cubes[number - 1][face][0] else QuestionMark
  {
    if |code| < 2 then QuestionMark
    else
      match ParseTwoDigits(code[..2])
      case None => QuestionMark
      case Some(number) =>
        var cubeNumber := number - 1;
        match LabelFace(code[2..])
        case None => QuestionMark
        case Some(index) =>
          if 0 <= cubeNumber < |cubes| && index < |cubes[cubeNumber]| && |cubes[cubeNumber][index]| > 0
          then cubes[cubeNumber][index][0]
          else QuestionMark
  }

  /** A code led by '-' parses to a number of at most 0, so its cube index is
      out of range and it decodes to '?'. */
  lemma SignedCodeFails(code: Str, cubes: seq<Cube>)
    requires |code| == 4 && code[0] == Minus
    ensures FindCharacter(code, cubes) == QuestionMark
  {
    assert code[..2][0] == Minus;
  }

  // ---------------------------------------------------------------------
  // The codec round trip.
  // ---------------------------------------------------------------------

  /** With cubes of the generated shape, at most 99 of them, every code unit
      some face holds decodes back from its code. */
  lemma CoordinateRoundTrip(letter: CodeUnit, cubes: seq<Cube>)
    requires WellShaped(cubes)
    requires |cubes| <= 99
    requires Locate(letter, cubes).Some?
    ensures FindCharacter(Coordinate(letter, cubes), cubes) == letter
  {
    var p := Locate(letter, cubes).value;
    var code := Coordinate(letter, cubes);
    FormatThenParse(p.cube + 1);
    LabelsAreBijective(p.face, FaceLabel(p.face));
    assert code[..2] == FormatTwoDigits(p.cube + 1);
    assert code[2..] == FaceLabel(p.face);
  }

  /** A cube number above 99 is written with three or more digits, so its
      code cannot be read back and decodes to '?'. */
  lemma WideCubeNumberFails(letter: CodeUnit, cubes: seq<Cube>)
    requires WellShaped(cubes)
    requires Locate(letter, cubes).Some? && Locate(letter, cubes).value.cube >= 99
    ensures |Coordinate(letter, cubes)| >= 5
    ensures FindCharacter(Coordinate(letter, cubes), cubes) == QuestionMark
  {
  }

  /** In the cubes of a key, the code unit at the first occurrence i of a
      value sits at cube i / 6, face i % 6: padding never comes first. */
  lemma LocateInPartition(key: Str, i: nat)
    requires i < |key|
    requires key[i] !in key[..i]
    ensures Locate(key[i], Partition(key)) == Some(Position(i / CubeSize, i % CubeSize))
  {
    var cubes := Partition(key);
    var letter := key[i];
    var p := Position(i / CubeSize, i % CubeSize);
    assert i == CubeSize * p.cube + p.face;
    PartitionCell(key, p.cube, p.face);
    forall c | 0 <= c < p.cube
      ensures [letter] !in cubes[c]
    {
      PartitionCell(key, c, 0);
      forall f | 0 <= f < CubeSize
        ensures cubes[c][f] != [letter]
      {
        NoEarlierMatch(key, i, c, f);
      }
    }
    forall f | 0 <= f < p.face
      ensures cubes[p.cube][f] != [letter]
    {
      NoEarlierMatch(key, i, p.cube, f);
    }
    assert IsFirstMatch(letter, cubes, p);
    FirstMatchUnique(letter, cubes, p, Locate(letter, cubes).value);
  }

  /** A face before the first occurrence of key[i] holds another code unit. */
  lemma NoEarlierMatch(key: Str, i: nat, c: nat, f: nat)
    requires i < |key| && key[i] !in key[..i]
    requires f < CubeSize && CubeSize * c + f < i
    ensures c < |Partition(key)| && |Partition(key)[c]| == CubeSize && Partition(key)[c][f] != [key[i]]
  {
    PartitionCell(key, c, f);
    assert key[CubeSize * c + f] in key[..i];
  }

  /** Every code unit of a key of at most 99 cubes (594 code units) decodes
      back from its code; the key need not be free of repeats. */
  lemma KeyRoundTrip(letter: CodeUnit, key: Str)
    requires letter in key
    requires |key| <= 99 * CubeSize
    ensures FindCharacter(Coordinate(letter, Partition(key)), Partition(key)) == letter
  {
    var i := FirstIndex(key, letter);
    LocateInPartition(key, i);
    PartitionWellShaped(key);
    PartitionShape(key);
    CoordinateRoundTrip(letter, Partition(key));
  }
}

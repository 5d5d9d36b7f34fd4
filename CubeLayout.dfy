/** `generateCubes`: the key cut into consecutive cubes of six one-character
    cells, the last cube padded with spaces. */
module CubeLayout {
  import opened JavaText

  const CubeSize := 6

  /** A cube as the source holds it: a `String[]`, one string per face. */
  type Cube = seq<Str>

  /** The shape generateCubes produces: six faces per cube, each face a
      one-code-unit string. */
  predicate WellShaped(cubes: seq<Cube>) {
    forall i :: 0 <= i < |cubes| ==>
      |cubes[i]| == CubeSize && forall j :: 0 <= j < CubeSize ==> |cubes[i][j]| == 1
  }

  /** The content of key position k: the code unit there, or the padding
      space past the end of the key. */
  function Cell(key: Str, k: nat): Str {
    if k < |key| then [key[k]] else [Space]
  }

  /** The first cube of key: its first six positions. */
  function FirstCube(key: Str): Cube {
    [Cell(key, 0), Cell(key, 1), Cell(key, 2), Cell(key, 3), Cell(key, 4), Cell(key, 5)]
  }

  /** What generateCubes returns for key. */
  function Partition(key: Str): seq<Cube>
    decreases |key|
  {
    if key == [] then []
    else [FirstCube(key)] + Partition(if |key| <= CubeSize then [] else key[CubeSize..])
  }

  /** ceil(|key| / 6) cubes of six faces; face j of cube i holds key position
      6i + j, or the padding space past the end of the key. */
  lemma {:induction false} PartitionShape(key: Str)
    ensures |Partition(key)| == (|key| + CubeSize - 1) / CubeSize
    ensures forall i :: 0 <= i < |Partition(key)| ==> |Partition(key)[i]| == CubeSize
    ensures forall i, j :: 0 <= i < |Partition(key)| && 0 <= j < CubeSize ==>
      Partition(key)[i][j] == Cell(key, CubeSize * i + j)
    decreases |key|
  {
    if key != [] {
      var rest := if |key| <= CubeSize then [] else key[CubeSize..];
      PartitionShape(rest);
      var p := Partition(key);
      assert p == [FirstCube(key)] + Partition(rest);
      forall i, j | 0 <= i < |p| && 0 <= j < CubeSize
        ensures p[i][j] == Cell(key, CubeSize * i + j)
      {
        if i > 0 {
          assert p[i] == Partition(rest)[i - 1];
          assert Cell(rest, CubeSize * (i - 1) + j) == Cell(key, CubeSize * i + j);
        }
      }
    }
  }

  /** One face of PartitionShape. */
  lemma PartitionCell(key: Str, c: nat, f: nat)
    requires CubeSize * c + f < |key| && f < CubeSize
    ensures c < |Partition(key)| && |Partition(key)[c]| == CubeSize
    ensures Partition(key)[c][f] == Cell(key, CubeSize * c + f)
  {
    PartitionShape(key);
  }

  lemma PartitionWellShaped(key: Str)
    ensures WellShaped(Partition(key))
  {
    PartitionShape(key);
  }

  /** generateCubes: the outer loop walks the key six positions at a time,
      the inner loop fills one six-face array, padding with " " past the end
      of the key. */
  method GenerateCubes(key: Str) returns (cubes: seq<Cube>)
    ensures cubes == Partition(key)
    ensures |cubes| == (|key| + CubeSize - 1) / CubeSize
    ensures forall i, j :: 0 <= i < |cubes| && 0 <= j < CubeSize ==>
      |cubes[i]| == CubeSize && cubes[i][j] == Cell(key, CubeSize * i + j)
  {
    cubes := [];
    var i := 0;
    while i < |key|
      invariant i == CubeSize * |cubes|
      invariant |cubes| <= (|key| + CubeSize - 1) / CubeSize
      invariant forall c :: 0 <= c < |cubes| ==> |cubes[c]| == CubeSize
      invariant forall c, j :: 0 <= c < |cubes| && 0 <= j < CubeSize ==>
        cubes[c][j] == Cell(key, CubeSize * c + j)
      decreases |key| - i
    {
      var cube := new Str[CubeSize];
      var j := 0;
      while j < CubeSize
        invariant 0 <= j <= CubeSize
        invariant forall f :: 0 <= f < j ==> cube[f] == Cell(key, i + f)
      {
        if i + j < |key| {
          cube[j] := [key[i + j]];
        } else {
          cube[j] := [Space];
        }
        j := j + 1;
      }
      cubes := cubes + [cube[..]];
      i := i + CubeSize;
    }
    PartitionShape(key);
    assert |cubes| == |Partition(key)|;
    forall c | 0 <= c < |cubes|
      ensures cubes[c] == Partition(key)[c]
    {
      assert forall j :: 0 <= j < CubeSize ==> cubes[c][j] == Partition(key)[c][j];
    }
  }
}

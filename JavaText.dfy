/** Java text as the cipher sees it: a `String` is a sequence of UTF-16 code
    units, and the library calls the cipher relies on (`trim`, `split(" ")`,
    appending tokens separated by one space) are modelled here. */
module JavaText {

  /** A Java `char`: one UTF-16 code unit (surrogates included). */
  type CodeUnit = c: int | 0 <= c < 0x1_0000

  /** A Java `String`. */
  type Str = seq<CodeUnit>

  datatype Option<T> = None | Some(value: T)

  const Space: CodeUnit := ' ' as int
  const QuestionMark: CodeUnit := '?' as int

  predicate NoDuplicates(s: Str) {
    forall i, j :: 0 <= i < j < |s| ==> s[i] != s[j]
  }

  function Elements(s: Str): set<CodeUnit> {
    set x | x in s
  }

  /** A duplicate-free string has as many distinct elements as code units. */
  lemma {:induction false} DistinctCount(s: Str)
    requires NoDuplicates(s)
    ensures |Elements(s)| == |s|
  {
    if s != [] {
      var init := s[..|s| - 1];
      DistinctCount(init);
      assert Elements(s) == Elements(init) + {s[|s| - 1]};
      assert s[|s| - 1] !in Elements(init);
    }
  }

  /** The position of the first occurrence of x in s. */
  function FirstIndex(s: Str, x: CodeUnit): (i: nat)
    requires x in s
    ensures i < |s| && s[i] == x && x !in s[..i]
  {
    if s[0] == x then 0
    else
      assert x in s[1..];
      var j := FirstIndex(s[1..], x);
      assert s[..j + 1] == [s[0]] + s[1..][..j];
      j + 1
  }

  /** Any index holding x with no x before it is the first occurrence. */
  lemma FirstIndexUnique(s: Str, x: CodeUnit, i: nat)
    requires i < |s| && s[i] == x && x !in s[..i]
    ensures FirstIndex(s, x) == i
  {
  }

  // ---------------------------------------------------------------------
  // String.trim(): drop every code unit <= U+0020 from both ends.
  // ---------------------------------------------------------------------

  function TrimEnd(s: Str): (r: Str)
    ensures r <= s
    ensures r == [] || r[|r| - 1] > Space
    ensures forall k :: |r| <= k < |s| ==> s[k] <= Space
    decreases |s|
  {
    if s != [] && s[|s| - 1] <= Space then TrimEnd(s[..|s| - 1]) else s
  }

  function TrimStart(s: Str): (r: Str)
    ensures |r| <= |s| && r == s[|s| - |r|..]
    ensures r == [] || r[0] > Space
    ensures forall k :: 0 <= k < |s| - |r| ==> s[k] <= Space
    decreases |s|
  {
    if s != [] && s[0] <= Space then TrimStart(s[1..]) else s
  }

  /** String.trim(): what is left starts and ends with a code unit above
      U+0020, and nothing is left only when every code unit is at most
      U+0020. */
  function Trim(s: Str): (r: Str)
    ensures |r| <= |s|
    ensures r == [] || (r[0] > Space && r[|r| - 1] > Space)
    ensures r == [] <==> forall k :: 0 <= k < |s| ==> s[k] <= Space
  {
    TrimStart(TrimEnd(s))
  }

  /** Trimming a string that starts and ends with a visible code unit, and
      carries one extra trailing space, gives back the string. */
  lemma TrimTrailingSpace(s: Str)
    requires s != [] && s[0] > Space && s[|s| - 1] > Space
    ensures Trim(s + [Space]) == s
  {
    assert (s + [Space])[..|s|] == s;
  }

  // ---------------------------------------------------------------------
  // Tokens joined by single spaces, and String.split(" ").
  // ---------------------------------------------------------------------

  /** The tokens of ts with one space between neighbours. */
  function Join(ts: seq<Str>): Str
    decreases |ts|
  {
    if ts == [] then []
    else if |ts| == 1 then ts[0]
    else Join(ts[..|ts| - 1]) + [Space] + ts[|ts| - 1]
  }

  lemma JoinAppend(ts: seq<Str>, t: Str)
    requires ts != []
    ensures Join(ts + [t]) == Join(ts) + [Space] + t
  {
    assert (ts + [t])[..|ts|] == ts;
  }

  /** Each token followed by one space, as a StringBuilder fills when every
      append of a token is followed by an append of " ". */
  function Terminated(ts: seq<Str>): Str
    decreases |ts|
  {
    if ts == [] then [] else Terminated(ts[..|ts| - 1]) + ts[|ts| - 1] + [Space]
  }

  lemma TerminatedAppend(ts: seq<Str>, t: Str)
    ensures Terminated(ts + [t]) == Terminated(ts) + t + [Space]
  {
    assert (ts + [t])[..|ts|] == ts;
  }

  /** Tokens each followed by a space are the tokens joined by spaces, plus
      one trailing space. */
  lemma {:induction false} TerminatedJoin(ts: seq<Str>)
    requires ts != []
    ensures Terminated(ts) == Join(ts) + [Space]
    decreases |ts|
  {
    if |ts| > 1 {
      TerminatedJoin(ts[..|ts| - 1]);
    }
  }

  /** A join of non-empty tokens starts with the first token's first code
      unit and ends with the last token's last code unit. */
  lemma {:induction false} JoinEnds(ts: seq<Str>)
    requires ts != []
    requires forall k :: 0 <= k < |ts| ==> ts[k] != []
    ensures Join(ts) != []
    ensures Join(ts)[0] == ts[0][0]
    ensures Join(ts)[|Join(ts)| - 1] == ts[|ts| - 1][|ts[|ts| - 1]| - 1]
    decreases |ts|
  {
    if |ts| > 1 {
      JoinEnds(ts[..|ts| - 1]);
    }
  }

  /** Every piece between spaces, empty pieces included: a string with k
      spaces has k + 1 pieces. */
  function RawSplit(s: Str): (r: seq<Str>)
    ensures |r| >= 1
    ensures forall t :: t in r ==> Space !in t
    decreases |s|
  {
    if s == [] then [[]]
    else
      var p := RawSplit(s[..|s| - 1]);
      var x := s[|s| - 1];
      if x == Space then p + [[]]
      else p[..|p| - 1] + [p[|p| - 1] + [x]]
  }

  /** Joining the pieces with single spaces gives back the string. */
  lemma {:induction false} JoinRawSplit(s: Str)
    ensures Join(RawSplit(s)) == s
    decreases |s|
  {
    if s != [] {
      var s' := s[..|s| - 1];
      var p := RawSplit(s');
      var x := s[|s| - 1];
      JoinRawSplit(s');
      assert s' + [x] == s;
      if x == Space {
        JoinAppend(p, []);
      } else {
        var init, last := p[..|p| - 1], p[|p| - 1];
        assert p == init + [last];
        if init != [] {
          JoinAppend(init, last + [x]);
          JoinAppend(init, last);
          assert Join(RawSplit(s)) == Join(p) + [x];
        } else {
          assert Join(RawSplit(s)) == last + [x];
        }
      }
    }
  }

  /** Drops empty tokens from the end, as String.split does with limit 0. */
  function DropTrailingEmpty(ts: seq<Str>): (r: seq<Str>)
    ensures r <= ts
    ensures r == [] || r[|r| - 1] != []
    ensures forall k :: |r| <= k < |ts| ==> ts[k] == []
    decreases |ts|
  {
    if ts != [] && ts[|ts| - 1] == [] then DropTrailingEmpty(ts[..|ts| - 1]) else ts
  }

  /** Java's `s.split(" ")`: with no space the whole string is the one token
      (so "" gives [""]); otherwise the pieces between spaces, leading and
      inner empty pieces kept, trailing empty pieces dropped. */
  function SplitOnSpace(s: Str): (r: seq<Str>)
    ensures forall t :: t in r ==> Space !in t
    ensures s != [] && r != [] ==> r[|r| - 1] != []
  {
    if Space !in s then [s] else DropTrailingEmpty(RawSplit(s))
  }

  lemma {:induction false} RawSplitSpaceFree(s: Str)
    requires Space !in s
    ensures RawSplit(s) == [s]
    decreases |s|
  {
    if s != [] {
      RawSplitSpaceFree(s[..|s| - 1]);
      assert s[..|s| - 1] + [s[|s| - 1]] == s;
    }
  }

  lemma {:induction false} RawSplitAfterSpace(a: Str, b: Str)
    requires Space !in b
    ensures RawSplit(a + [Space] + b) == RawSplit(a) + [b]
    decreases |b|
  {
    var s := a + [Space] + b;
    if b == [] {
      assert s[..|s| - 1] == a;
    } else {
      var b' := b[..|b| - 1];
      assert s[..|s| - 1] == a + [Space] + b';
      RawSplitAfterSpace(a, b');
      assert b' + [b[|b| - 1]] == b;
    }
  }

  /** Splitting the pieces back out of their join: the other half of
      JoinRawSplit. */
  lemma {:induction false} RawSplitJoin(ts: seq<Str>)
    requires ts != []
    requires forall t :: t in ts ==> Space !in t
    ensures RawSplit(Join(ts)) == ts
    decreases |ts|
  {
    if |ts| == 1 {
      RawSplitSpaceFree(ts[0]);
    } else {
      var init, last := ts[..|ts| - 1], ts[|ts| - 1];
      assert ts == init + [last];
      assert Join(ts) == Join(init) + [Space] + last;
      assert last in ts;
      assert forall t :: t in init ==> t in ts;
      RawSplitJoin(init);
      RawSplitAfterSpace(Join(init), last);
    }
  }

  /** split(" ") undoes Join for non-empty, space-free tokens. */
  lemma SplitJoin(ts: seq<Str>)
    requires ts != []
    requires forall t :: t in ts ==> t != [] && Space !in t
    ensures SplitOnSpace(Join(ts)) == ts
  {
    RawSplitJoin(ts);
    if Space !in Join(ts) {
      RawSplitSpaceFree(Join(ts));
    }
  }

  /** "".split(" ") is [""]: one empty token. */
  lemma SplitEmpty()
    ensures SplitOnSpace([]) == [[]]
  {
  }

  /** A string made only of spaces splits to no tokens at all. */
  lemma {:induction false} SplitOnlySpaces(s: Str)
    requires s != []
    requires forall k :: 0 <= k < |s| ==> s[k] == Space
    ensures SplitOnSpace(s) == []
  {
    AllSpacesRawSplit(s);
    assert s[0] == Space;
  }

  lemma {:induction false} AllSpacesRawSplit(s: Str)
    requires forall k :: 0 <= k < |s| ==> s[k] == Space
    ensures forall k :: 0 <= k < |RawSplit(s)| ==> RawSplit(s)[k] == []
    decreases |s|
  {
    if s != [] {
      AllSpacesRawSplit(s[..|s| - 1]);
    }
  }
}

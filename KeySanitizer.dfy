/** `sanitizeKey`: the user's key, with repeats removed, followed by every
    printable ASCII code unit (32..126) the key does not already use. */
module KeySanitizer {
  import opened JavaText

  const FirstPrintable: CodeUnit := 32
  const LastPrintable: CodeUnit := 126

  predicate IsPrintableAscii(c: CodeUnit) {
    FirstPrintable <= c <= LastPrintable
  }

  /** The 95 printable ASCII code units in ascending order. */
  function PrintableAscii(): (r: Str)
    ensures |r| == 95
  {
    seq(95, i requires 0 <= i < 95 => FirstPrintable + i)
  }

  /** The distinct code units of s, each kept at its first occurrence, in
      input order. */
  function Dedup(s: Str): (r: Str)
    ensures NoDuplicates(r)
    ensures forall x :: x in r <==> x in s
    decreases |s|
  {
    if s == [] then []
    else
      var init, last := s[..|s| - 1], s[|s| - 1];
      if last in init then Dedup(init) else Dedup(init) + [last]
  }

  /** The printable ASCII code units below hi that are not in used, in
      ascending order. */
  function Missing(used: set<CodeUnit>, hi: int): Str
    requires FirstPrintable <= hi <= LastPrintable + 1
    decreases hi
  {
    if hi == FirstPrintable then []
    else Missing(used, hi - 1) + (if hi - 1 in used then [] else [hi - 1])
  }

  /** Missing(used, hi) lists, in strictly ascending order, exactly the
      printable ASCII code units below hi that are not in used. */
  lemma {:induction false} MissingMembers(used: set<CodeUnit>, hi: int)
    requires FirstPrintable <= hi <= LastPrintable + 1
    ensures forall x {:trigger x in Missing(used, hi)} ::
      x in Missing(used, hi) <==> FirstPrintable <= x < hi && x !in used
    ensures forall i :: 0 <= i < |Missing(used, hi)| ==> Missing(used, hi)[i] < hi
    ensures forall i, j :: 0 <= i < j < |Missing(used, hi)| ==> Missing(used, hi)[i] < Missing(used, hi)[j]
    decreases hi
  {
    if hi > FirstPrintable {
      MissingMembers(used, hi - 1);
    }
  }

  /** What sanitizeKey returns for inputKey. */
  function Sanitized(inputKey: Str): Str {
    Dedup(inputKey) + Missing(Elements(inputKey), LastPrintable + 1)
  }

  /** sanitizeKey: one pass keeps the first occurrence of each code unit of
      the key, a second pass appends the printable ASCII code units the first
      pass did not see. */
  method SanitizeKey(inputKey: Str) returns (key: Str)
    ensures key == Sanitized(inputKey)
    ensures NoDuplicates(key)
    ensures forall c: CodeUnit :: IsPrintableAscii(c) ==> c in key
  {
    var usedChars: set<CodeUnit> := {};
    key := [];
    var i := 0;
    while i < |inputKey|
      invariant 0 <= i <= |inputKey|
      invariant usedChars == Elements(inputKey[..i])
      invariant key == Dedup(inputKey[..i])
    {
      var ch := inputKey[i];
      DedupStep(inputKey, i);
      if ch !in usedChars {
        usedChars := usedChars + {ch};
        key := key + [ch];
      }
      i := i + 1;
    }
    assert inputKey[..i] == inputKey;
    ghost var distinct := key;
    var ch: int := FirstPrintable;
    while ch <= LastPrintable
      invariant FirstPrintable <= ch <= LastPrintable + 1
      invariant key == distinct + Missing(usedChars, ch)
    {
      if ch !in usedChars {
        key := key + [ch];
      }
      ch := ch + 1;
    }
    assert key == Sanitized(inputKey);
    SanitizedIsAlphabet(inputKey);
  }

  /** One turn of the first loop of sanitizeKey: the next code unit is kept
      exactly when it has not been seen. */
  lemma DedupStep(s: Str, i: nat)
    requires i < |s|
    ensures Elements(s[..i + 1]) == Elements(s[..i]) + {s[i]}
    ensures Dedup(s[..i + 1]) ==
      if s[i] in Elements(s[..i]) then Dedup(s[..i]) else Dedup(s[..i]) + [s[i]]
  {
    assert s[..i + 1] == s[..i] + [s[i]];
  }

  /** The sanitized key has no repeated code unit, and holds exactly the code
      units of the input and all printable ASCII ones. */
  lemma SanitizedIsAlphabet(inputKey: Str)
    ensures NoDuplicates(Sanitized(inputKey))
    ensures forall x {:trigger x in Sanitized(inputKey)} :: x in Sanitized(inputKey) <==> x in inputKey || IsPrintableAscii(x)
  {
    var d, m := Dedup(inputKey), Missing(Elements(inputKey), LastPrintable + 1);
    MissingMembers(Elements(inputKey), LastPrintable + 1);
    forall i, j | 0 <= i < j < |d + m|
      ensures (d + m)[i] != (d + m)[j]
    {
      if i < |d| && |d| <= j {
        assert (d + m)[i] in inputKey;
        assert (d + m)[j] == m[j - |d|];
        assert m[j - |d|] in m;
      }
    }
  }

  /** The set of printable ASCII code units. */
  function PrintableSet(): set<CodeUnit> {
    Elements(PrintableAscii())
  }

  lemma {:induction false} MissingNothing(hi: int)
    requires FirstPrintable <= hi <= LastPrintable + 1
    ensures Missing({}, hi) == seq(hi - FirstPrintable, i requires 0 <= i < hi - FirstPrintable => FirstPrintable + i)
    decreases hi
  {
    if hi > FirstPrintable {
      MissingNothing(hi - 1);
    }
  }

  /** The printable ASCII code units are exactly 32..126, 95 of them. */
  lemma PrintableSetSize()
    ensures forall c {:trigger c in PrintableSet()} :: c in PrintableSet() <==> IsPrintableAscii(c)
    ensures |PrintableSet()| == 95
  {
    MissingNothing(LastPrintable + 1);
    var m := Missing({}, LastPrintable + 1);
    assert m == PrintableAscii();
    MissingMembers({}, LastPrintable + 1);
    DistinctCount(m);
    forall c: CodeUnit
      ensures c in PrintableSet() <==> IsPrintableAscii(c)
    {
      assert c in m <==> IsPrintableAscii(c);
    }
  }

  /** Its length is the number of distinct input code units plus the number
      of printable ASCII code units the input lacks, hence at least 95. */
  lemma SanitizedLength(inputKey: Str)
    ensures |Sanitized(inputKey)| == |Elements(inputKey)| + |PrintableSet() - Elements(inputKey)|
    ensures |Sanitized(inputKey)| >= 95
  {
    var used := Elements(inputKey);
    var d, m := Dedup(inputKey), Missing(used, LastPrintable + 1);
    MissingMembers(used, LastPrintable + 1);
    DistinctCount(d);
    DistinctCount(m);
    PrintableSetSize();
    assert Elements(d) == used;
    assert Elements(m) == PrintableSet() - used;
    assert PrintableSet() == (PrintableSet() - used) + (PrintableSet() * used);
    assert PrintableSet() * used <= used;
    SubsetSize(PrintableSet() * used, used);
  }

  lemma SubsetSize(a: set<CodeUnit>, b: set<CodeUnit>)
    requires a <= b
    ensures |a| <= |b|
  {
    assert b == a + (b - a);
  }

  /** The empty key sanitizes to the 95 printable ASCII code units in
      ascending order. */
  lemma SanitizedEmpty()
    ensures Sanitized([]) == PrintableAscii()
    ensures |Sanitized([])| == 95
  {
    assert Elements([]) == {};
    MissingNothing(LastPrintable + 1);
  }

  /** A key without repeats is its own Dedup. */
  lemma {:induction false} DedupDistinct(s: Str)
    requires NoDuplicates(s)
    ensures Dedup(s) == s
    decreases |s|
  {
    if s != [] {
      var init := s[..|s| - 1];
      DedupDistinct(init);
      assert s[|s| - 1] !in init;
      assert init + [s[|s| - 1]] == s;
    }
  }

  /** Dedup keeps the distinct code units in the order of their first
      occurrences. */
  lemma {:induction false} DedupOrder(s: Str)
    ensures forall j, k :: 0 <= j < k < |Dedup(s)| ==>
      FirstIndex(s, Dedup(s)[j]) < FirstIndex(s, Dedup(s)[k])
    decreases |s|
  {
    if s != [] {
      var init, last := s[..|s| - 1], s[|s| - 1];
      assert s == init + [last];
      DedupOrder(init);
      var d := Dedup(init);
      var r := if last in init then d else d + [last];
      assert Dedup(s) == r;
      forall j, k | 0 <= j < k < |r|
        ensures FirstIndex(s, r[j]) < FirstIndex(s, r[k])
      {
        FirstIndexExtend(init, last, r[j]);
        FirstIndexExtend(init, last, r[k]);
      }
    }
  }

  /** Appending a code unit does not move the first occurrence of anything
      already present; a new code unit first occurs at the end. */
  lemma FirstIndexExtend(init: Str, last: CodeUnit, x: CodeUnit)
    requires x in init || x == last
    ensures x in init ==> FirstIndex(init + [last], x) == FirstIndex(init, x) < |init|
    ensures x !in init ==> FirstIndex(init + [last], x) == |init|
  {
    var s := init + [last];
    if x in init {
      var i := FirstIndex(init, x);
      assert s[..i] == init[..i];
      FirstIndexUnique(s, x, i);
    } else {
      assert s[..|init|] == init;
      FirstIndexUnique(s, x, |init|);
    }
  }

  /** Dedup never reorders: the result for a prefix is a prefix of the
      result for the whole input. */
  lemma {:induction false} DedupPrefix(s: Str, t: Str)
    ensures Dedup(s) <= Dedup(s + t)
    decreases |t|
  {
    if t != [] {
      var t' := t[..|t| - 1];
      DedupPrefix(s, t');
      assert (s + t)[..|s + t| - 1] == s + t';
    } else {
      assert s + t == s;
    }
  }

  /** Sanitizing a sanitized key changes nothing. */
  lemma SanitizeIdempotent(inputKey: Str)
    ensures Sanitized(Sanitized(inputKey)) == Sanitized(inputKey)
  {
    var k := Sanitized(inputKey);
    SanitizedIsAlphabet(inputKey);
    DedupDistinct(k);
    assert forall c: CodeUnit :: IsPrintableAscii(c) ==> c in Sanitized(inputKey);
    NothingMissing(Elements(k), LastPrintable + 1);
  }

  /** A set that already holds every printable ASCII code unit leaves
      nothing for the second pass to append. */
  lemma {:induction false} NothingMissing(used: set<CodeUnit>, hi: int)
    requires FirstPrintable <= hi <= LastPrintable + 1
    requires forall c: CodeUnit :: IsPrintableAscii(c) ==> c in used
    ensures Missing(used, hi) == []
    decreases hi
  {
    if hi > FirstPrintable {
      NothingMissing(used, hi - 1);
    }
  }
}

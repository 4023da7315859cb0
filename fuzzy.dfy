/** The fuzzy corrector: `correct_port_name` picks, with rapidfuzz's
    `process.extractOne`, the candidate that scores best against a cell and
    keeps it only when the score clears a fixed threshold. The scorer is a
    parameter; `Ratio` defines rapidfuzz's `fuzz.ratio` (the normalised Indel
    similarity) for the properties that need a concrete one. */
module Fuzzy {
  import opened Sequences
  import opened Tables

  /** A score must be strictly above this for a candidate to replace the cell. */
  const Threshold: real := 80.0

  /** A scorer, as `fuzz.ratio`: query and choice to a similarity. */
  type Scorer = (string, string) -> real

  /** `k` is the first position whose candidate scores highest against `query`. */
  ghost predicate IsFirstBest(score: Scorer, query: string, choices: seq<string>, k: nat) {
    && k < |choices|
    && (forall j :: 0 <= j < |choices| ==> score(query, choices[j]) <= score(query, choices[k]))
    && (forall j :: 0 <= j < k ==> score(query, choices[j]) < score(query, choices[k]))
  }

  /** What `extractOne` returns: the chosen candidate, its score and its position. */
  datatype Match = Match(choice: string, score: real, index: nat)

  /** `process.extractOne(query, choices, scorer=score)`: no result for an empty
      list, otherwise the first candidate with the maximal score. */
  function ExtractOne(score: Scorer, query: string, choices: seq<string>): (m: Option<Match>)
    ensures m.None? <==> choices == []
    ensures m.Some? ==> && IsFirstBest(score, query, choices, m.value.index)
                        && m.value.choice == choices[m.value.index]
                        && m.value.score == score(query, m.value.choice)
    decreases |choices|
  {
    if choices == [] then None
    else
      var last := choices[|choices| - 1];
      var s := score(query, last);
      match ExtractOne(score, query, choices[..|choices| - 1])
      case None => Some(Match(last, s, |choices| - 1))
      case Some(best) =>
        if s > best.score then Some(Match(last, s, |choices| - 1)) else Some(best)
  }

  /** `correct_port_name(port_name, correct_port_names)`. */
  function CorrectPortName(score: Scorer, portName: string, names: seq<string>): (r: string)
    ensures r == portName || r in names
    ensures r != portName ==> score(portName, r) > Threshold
    ensures (forall j :: 0 <= j < |names| ==> score(portName, names[j]) <= Threshold) ==> r == portName
    ensures (exists j :: 0 <= j < |names| && score(portName, names[j]) > Threshold) ==>
              exists k: nat :: IsFirstBest(score, portName, names, k) && r == names[k]
  {
    match ExtractOne(score, portName, names)
    case Some(best) =>
      if best.score > Threshold then best.choice
      else
        assert forall j :: 0 <= j < |names| ==> score(portName, names[j]) <= Threshold;
        portName
    case None => portName
  }

  /** `correct_port_name` applied to one cell of the column (line 170's
      `apply`). A string becomes itself or one of the candidates, and a
      different one only when it scores above 80; a missing cell stays
      missing, since `extractOne` gives no result for a NaN query; a number
      is kept. */
  function CorrectCell(score: Scorer, names: seq<string>, c: Cell): (r: Cell)
    ensures c.Str? <==> r.Str?
    ensures c.Str? ==> (r.text == c.text || r.text in names)
    ensures c.Str? && r.text != c.text ==> score(c.text, r.text) > Threshold
    ensures c.Str? && (forall j :: 0 <= j < |names| ==> score(c.text, names[j]) <= Threshold) ==> r == c
    ensures !c.Str? ==> r == c
  {
    if c.Str? then Str(CorrectPortName(score, c.text, names)) else c
  }

  /** `df[column] = df[column].apply(lambda x: correct_port_name(x, names))` for
      the column at index `k`: each cell corrected on its own, every other
      column and the row count unchanged. */
  function CorrectColumn(t: Table, k: nat, score: Scorer, names: seq<string>): (r: Table)
    ensures SameShape(t, r) && (WellFormed(t) ==> WellFormed(r))
    ensures forall i :: 0 <= i < |t.rows| && k < |t.rows[i]| ==> r.rows[i][k] == CorrectCell(score, names, t.rows[i][k])
    ensures forall i, j :: 0 <= i < |t.rows| && 0 <= j < |t.rows[i]| && j != k ==> r.rows[i][j] == t.rows[i][j]
  {
    MapColumn(t, k, c => CorrectCell(score, names, c))
  }

  // ---------------------------------------------------------------- fuzz.ratio

  function Max(x: nat, y: nat): nat {
    if x < y then y else x
  }

  /** The length of a longest common subsequence of `a` and `b`, by the usual
      recurrence on the last characters; `CommonSubsequence` and
      `LcsMaximal` show that it is exactly that length. */
  function Lcs(a: string, b: string): (n: nat)
    ensures n <= |a| && n <= |b|
    decreases |a| + |b|
  {
    if a == [] || b == [] then 0
    else
      var a', b' := a[..|a| - 1], b[..|b| - 1];
      if a[|a| - 1] == b[|b| - 1] then 1 + Lcs(a', b')
      else Max(Lcs(a', b), Lcs(a, b'))
  }

  /** A common subsequence of `a` and `b` that is `Lcs(a, b)` long. */
  function CommonSubsequence(a: string, b: string): (c: string)
    ensures |c| == Lcs(a, b)
    ensures IsSubsequence(c, a) && IsSubsequence(c, b)
    decreases |a| + |b|
  {
    if a == [] || b == [] then []
    else
      var a', b' := a[..|a| - 1], b[..|b| - 1];
      if a[|a| - 1] == b[|b| - 1] then
        var c := CommonSubsequence(a', b') + [a[|a| - 1]];
        assert c[..|c| - 1] == CommonSubsequence(a', b');
        c
      else if Lcs(a', b) >= Lcs(a, b') then CommonSubsequence(a', b)
      else CommonSubsequence(a, b')
  }

  /** No common subsequence of `a` and `b` is longer than `Lcs(a, b)`. */
  lemma {:induction false} LcsMaximal(a: string, b: string, c: string)
    requires IsSubsequence(c, a) && IsSubsequence(c, b)
    ensures |c| <= Lcs(a, b)
    decreases |a| + |b|
  {
    if c != [] {
      var a', b', c' := a[..|a| - 1], b[..|b| - 1], c[..|c| - 1];
      if a[|a| - 1] == b[|b| - 1] {
        if IsSubsequence(c, a') {
          SubsequenceDropLast(c, a');
        }
        if IsSubsequence(c, b') {
          SubsequenceDropLast(c, b');
        }
        LcsMaximal(a', b', c');
      } else if IsSubsequence(c, a') {
        LcsMaximal(a', b, c);
      } else {
        LcsMaximal(a, b', c);
      }
    }
  }

  /** Comparing `200 * l / s` with 80 and with 100, without division. */
  lemma ScaledRatio(l: nat, s: nat)
    requires s > 0
    ensures 0.0 <= (200.0 * l as real) / (s as real)
    ensures 2 * l <= s ==> (200.0 * l as real) / (s as real) <= 100.0
    ensures (200.0 * l as real) / (s as real) > 80.0 <==> 5 * l > 2 * s
    ensures (200.0 * l as real) / (s as real) == 100.0 <==> 2 * l == s
  {
    var total, common := s as real, 200.0 * l as real;
    DivCompare(common, total, 80.0);
    DivCompare(common, total, 100.0);
    assert common <= 80.0 * total <==> 200 * l <= 80 * s;
    assert common == 100.0 * total <==> 200 * l == 100 * s;
  }

  lemma DivCompare(x: real, y: real, c: real)
    requires y > 0.0
    ensures x / y <= c <==> x <= c * y
    ensures x / y == c <==> x == c * y
    ensures 0.0 <= x ==> 0.0 <= x / y
  {
    assert (x / y) * y == x;
  }

  /** `fuzz.ratio(a, b)`: 100 * (1 - d / (|a| + |b|)) for the Indel distance
      d = |a| + |b| - 2 * Lcs(a, b), and 100 for two empty strings. */
  function Ratio(a: string, b: string): (r: real)
    ensures 0.0 <= r <= 100.0
  {
    if |a| + |b| == 0 then 100.0
    else
      ScaledRatio(Lcs(a, b), |a| + |b|);
      (200.0 * Lcs(a, b) as real) / ((|a| + |b|) as real)
  }

  /** The ratio exceeds the threshold exactly when 5 * Lcs(a, b) > 2 * (|a| + |b|). */
  lemma RatioAboveThreshold(a: string, b: string)
    requires |a| + |b| > 0
    ensures Ratio(a, b) > Threshold <==> 5 * Lcs(a, b) > 2 * (|a| + |b|)
  {
    var l, s := Lcs(a, b), |a| + |b|;
    assert Ratio(a, b) == (200.0 * l as real) / (s as real);
    ScaledRatio(l, s);
  }

  /** The ratio is 100 exactly when 2 * Lcs(a, b) == |a| + |b|. */
  lemma RatioFull(a: string, b: string)
    requires |a| + |b| > 0
    ensures Ratio(a, b) == 100.0 <==> 2 * Lcs(a, b) == |a| + |b|
  {
    var l, s := Lcs(a, b), |a| + |b|;
    assert Ratio(a, b) == (200.0 * l as real) / (s as real);
    ScaledRatio(l, s);
  }

  lemma {:induction false} LcsSelf(a: string)
    ensures Lcs(a, a) == |a|
    decreases |a|
  {
    if a != [] {
      LcsSelf(a[..|a| - 1]);
    }
  }

  /** A common subsequence as long as both strings means the strings are equal. */
  lemma {:induction false} LcsFull(a: string, b: string)
    requires Lcs(a, b) == |a| == |b|
    ensures a == b
    decreases |a| + |b|
  {
    if a != [] {
      var a', b' := a[..|a| - 1], b[..|b| - 1];
      assert a[|a| - 1] == b[|b| - 1];
      LcsFull(a', b');
      assert a == a' + [a[|a| - 1]] && b == b' + [b[|b| - 1]];
    }
  }

  lemma {:induction false} LcsSymmetric(a: string, b: string)
    ensures Lcs(a, b) == Lcs(b, a)
    decreases |a| + |b|
  {
    if a != [] && b != [] {
      var a', b' := a[..|a| - 1], b[..|b| - 1];
      if a[|a| - 1] == b[|b| - 1] {
        LcsSymmetric(a', b');
      } else {
        LcsSymmetric(a', b);
        LcsSymmetric(a, b');
      }
    }
  }

  /** The ratio is 100 exactly when the two strings are equal. */
  lemma RatioFullIffEqual(a: string, b: string)
    ensures Ratio(a, b) == 100.0 <==> a == b
  {
    if a == b {
      LcsSelf(a);
    }
    if |a| + |b| > 0 {
      RatioFull(a, b);
      if Ratio(a, b) == 100.0 {
        LcsFull(a, b);
      }
    }
  }

  lemma RatioSymmetric(a: string, b: string)
    ensures Ratio(a, b) == Ratio(b, a)
  {
    LcsSymmetric(a, b);
    assert |a| + |b| == |b| + |a|;
  }

  /** Two strings whose lengths differ enough never score above the threshold:
      when 200 * min(|a|, |b|) <= 80 * (|a| + |b|), the ratio is at most 80. */
  lemma RatioLengthBound(a: string, b: string)
    requires |a| + |b| > 0
    requires 200 * (if |a| < |b| then |a| else |b|) <= 80 * (|a| + |b|)
    ensures Ratio(a, b) <= Threshold
  {
    RatioAboveThreshold(a, b);
  }

  /** The number of characters of `a`, counted with repetition, that occur
      somewhere in `b`. */
  function SharedChars(a: string, b: string): (n: nat)
    ensures n <= |a|
    decreases |a|
  {
    if a == [] then 0 else SharedChars(a[..|a| - 1], b) + (if a[|a| - 1] in b then 1 else 0)
  }

  lemma {:induction false} SharedCharsMonotone(a: string, b: string, c: string)
    requires forall x :: x in b ==> x in c
    ensures SharedChars(a, b) <= SharedChars(a, c)
    decreases |a|
  {
    if a != [] {
      SharedCharsMonotone(a[..|a| - 1], b, c);
    }
  }

  /** A common subsequence uses only characters of `a` that occur in `b`. */
  lemma {:induction false} LcsSharedChars(a: string, b: string)
    ensures Lcs(a, b) <= SharedChars(a, b)
    decreases |a| + |b|
  {
    if a != [] && b != [] {
      var a', b' := a[..|a| - 1], b[..|b| - 1];
      if a[|a| - 1] == b[|b| - 1] {
        LcsSharedChars(a', b');
        SharedCharsMonotone(a', b', b);
      } else {
        LcsSharedChars(a', b);
        LcsSharedChars(a, b');
        SharedCharsMonotone(a, b', b);
      }
    }
  }

  /** Too few shared characters keep the ratio at or below the threshold. */
  lemma RatioSharedCharsBound(a: string, b: string)
    requires |a| + |b| > 0
    requires 5 * SharedChars(a, b) <= 2 * (|a| + |b|)
    ensures Ratio(a, b) <= Threshold
  {
    LcsSharedChars(a, b);
    RatioAboveThreshold(a, b);
  }

  /** A scorer that, like `fuzz.ratio`, never exceeds 100 and gives 100
      exactly to identical strings. */
  ghost predicate PerfectOnlyWhenEqual(score: Scorer) {
    forall a, b :: score(a, b) <= 100.0 && (score(a, b) == 100.0 <==> a == b)
  }

  lemma RatioPerfectOnlyWhenEqual()
    ensures PerfectOnlyWhenEqual(Ratio)
  {
    forall a, b ensures Ratio(a, b) <= 100.0 && (Ratio(a, b) == 100.0 <==> a == b) {
      RatioFullIffEqual(a, b);
    }
  }

  /** A name that already is one of the correct names is left as it is. */
  lemma ExactNameKept(score: Scorer, portName: string, names: seq<string>)
    requires PerfectOnlyWhenEqual(score)
    requires portName in names
    ensures CorrectPortName(score, portName, names) == portName
  {
    var r := CorrectPortName(score, portName, names);
    var j :| 0 <= j < |names| && names[j] == portName;
    assert score(portName, portName) == 100.0;
    assert exists j :: 0 <= j < |names| && score(portName, names[j]) > Threshold;
    var k: nat :| IsFirstBest(score, portName, names, k) && r == names[k];
    assert score(portName, names[j]) <= score(portName, names[k]) <= 100.0;
    assert names[k] == portName;
  }

  /** With such a scorer, correcting a corrected name changes nothing. */
  lemma CorrectPortNameIdempotent(score: Scorer, portName: string, names: seq<string>)
    requires PerfectOnlyWhenEqual(score)
    ensures CorrectPortName(score, CorrectPortName(score, portName, names), names)
         == CorrectPortName(score, portName, names)
  {
    var r := CorrectPortName(score, portName, names);
    if r != portName {
      ExactNameKept(score, r, names);
    }
  }

  /** Correcting a column twice is correcting it once. */
  lemma CorrectColumnIdempotent(t: Table, k: nat, score: Scorer, names: seq<string>)
    requires PerfectOnlyWhenEqual(score)
    ensures CorrectColumn(CorrectColumn(t, k, score, names), k, score, names) == CorrectColumn(t, k, score, names)
  {
    var r := CorrectColumn(t, k, score, names);
    var r2 := CorrectColumn(r, k, score, names);
    forall i | 0 <= i < |r.rows| ensures r2.rows[i] == r.rows[i] {
      if k < |r.rows[i]| && t.rows[i][k].Str? {
        CorrectPortNameIdempotent(score, t.rows[i][k].text, names);
      }
      assert forall j :: 0 <= j < |r.rows[i]| ==> r2.rows[i][j] == r.rows[i][j];
    }
    assert r2.rows == r.rows;
  }

  /** Three small cases: an exact name is kept, a tie goes to the first
      candidate (`extractOne` reports position 0), and "Tokyo" is too short
      to score above 80 against either candidate, so it is kept. */
  lemma CorrectPortNameExamples()
    ensures CorrectPortName(Ratio, "New York", ["New York", "Los Angeles"]) == "New York"
    ensures CorrectPortName(Ratio, "AAA", ["AAA", "AAA"]) == "AAA"
    ensures ExtractOne(Ratio, "AAA", ["AAA", "AAA"]).Some?
    ensures ExtractOne(Ratio, "AAA", ["AAA", "AAA"]).value.index == 0
    ensures CorrectPortName(Ratio, "Tokyo", ["New York", "Los Angeles"]) == "Tokyo"
  {
    RatioPerfectOnlyWhenEqual();
    ExactNameKept(Ratio, "New York", ["New York", "Los Angeles"]);
    ExactNameKept(Ratio, "AAA", ["AAA", "AAA"]);
    var names := ["New York", "Los Angeles"];
    RatioLengthBound("Tokyo", names[0]);
    RatioLengthBound("Tokyo", names[1]);
  }

  /** "Newyrok" shares only 6 characters with "New York", in order or not,
      and is too short against "Los Angeles": both ratios are at most 80. */
  lemma MisspelledNameScores()
    ensures Ratio("Newyrok", "New York") <= Threshold
    ensures Ratio("Newyrok", "Los Angeles") <= Threshold
  {
    var q, b := "Newyrok", "New York";
    assert b[0] == 'N' && b[1] == 'e' && b[2] == 'w' && b[5] == 'o' && b[6] == 'r' && b[7] == 'k';
    assert 'y' !in b;
    assert SharedChars(q[..1], b) == 1 by { assert q[..1][..0] == []; }
    assert SharedChars(q[..2], b) == 2 by { assert q[..2][..1] == q[..1]; }
    assert SharedChars(q[..3], b) == 3 by { assert q[..3][..2] == q[..2]; }
    assert SharedChars(q[..4], b) == 3 by { assert q[..4][..3] == q[..3]; }
    assert SharedChars(q[..5], b) == 4 by { assert q[..5][..4] == q[..4]; }
    assert SharedChars(q[..6], b) == 5 by { assert q[..6][..5] == q[..5]; }
    assert SharedChars(q, b) == 6 by { assert q[..6] == q[..|q| - 1]; }
    RatioSharedCharsBound("Newyrok", "New York");
    RatioLengthBound("Newyrok", "Los Angeles");
  }

  /** A transposition typo is not corrected: `fuzz.ratio` compares case and
      spaces as they are, so no candidate scores above 80 and the cell is kept. */
  lemma MisspelledNameKept()
    ensures CorrectPortName(Ratio, "Newyrok", ["New York", "Los Angeles"]) == "Newyrok"
  {
    var names := ["New York", "Los Angeles"];
    MisspelledNameScores();
    assert forall j :: 0 <= j < |names| ==> Ratio("Newyrok", names[j]) <= Threshold;
  }
}

/**
  Run-length codec of test_hypothesis.py: `encode` turns a string into a list
  of (character, count) runs, `decode` expands such a list back into a string.

  The specification functions are `Expand` (what decoding means) and `Runs`
  (the list of maximal runs of a string, built one character at a time). The
  methods `Encode` and `Decode` are the loops of Python's `encode` and
  `decode`, proved equal to those functions; the lemmas relate the two.
 */
module RunLength {

  datatype Option<T> = None | Some(value: T)

  /** One entry of the encoded list: a character and how often it repeats. */
  datatype Run = Run(ch: char, count: int)

  /** `c * n` on a one-character string: n copies of c, nothing when n <= 0. */
  function Repeat(c: char, n: int): (r: string)
    ensures |r| == if n <= 0 then 0 else n
    ensures forall i :: 0 <= i < |r| ==> r[i] == c
    decreases n
  {
    if n <= 0 then "" else [c] + Repeat(c, n - 1)
  }

  /** The string a run list stands for: its runs expanded and concatenated. */
  function Expand(runs: seq<Run>): string
  {
    if runs == [] then "" else Repeat(runs[0].ch, runs[0].count) + Expand(runs[1..])
  }

  /** Sum of the counts of a run list. */
  function TotalCount(runs: seq<Run>): int
  {
    if runs == [] then 0 else runs[0].count + TotalCount(runs[1..])
  }

  /** The shape of every list the encoder produces: positive counts, and no
      two neighbouring runs with the same character. */
  predicate WellFormed(runs: seq<Run>)
  {
    && (forall i :: 0 <= i < |runs| ==> runs[i].count >= 1)
    && (forall i :: 0 <= i < |runs| - 1 ==> runs[i].ch != runs[i + 1].ch)
  }

  /** Appending one character to the encoded prefix: the last run grows when
      it holds the same character, otherwise a new run of length 1 starts. */
  function Extend(runs: seq<Run>, c: char): seq<Run>
  {
    if runs != [] && runs[|runs| - 1].ch == c
    then runs[..|runs| - 1] + [Run(c, runs[|runs| - 1].count + 1)]
    else runs + [Run(c, 1)]
  }

  /** The maximal runs of `s`, from left to right. */
  function Runs(s: string): seq<Run>
    decreases |s|
  {
    if s == [] then [] else Extend(Runs(s[..|s| - 1]), s[|s| - 1])
  }

  // ---------------------------------------------------------------------------
  // Decoding

  /** Decoding distributes over concatenation of run lists. */
  lemma {:induction false} ExpandAppend(a: seq<Run>, b: seq<Run>)
    ensures Expand(a + b) == Expand(a) + Expand(b)
    decreases |a|
  {
    if a == [] {
      assert a + b == b;
    } else {
      assert (a + b)[1..] == a[1..] + b;
      ExpandAppend(a[1..], b);
    }
  }

  /** With no negative counts, the decoded length is the sum of the counts. */
  lemma {:induction false} ExpandLength(runs: seq<Run>)
    requires forall i :: 0 <= i < |runs| ==> runs[i].count >= 0
    ensures |Expand(runs)| == TotalCount(runs)
    decreases |runs|
  {
    if runs != [] {
      ExpandLength(runs[1..]);
    }
  }

  /** Every character of a decoded string comes from one of the runs. */
  lemma {:induction false} ExpandCharsFromRuns(runs: seq<Run>, k: int)
    requires 0 <= k < |Expand(runs)|
    ensures exists i :: 0 <= i < |runs| && runs[i].ch == Expand(runs)[k]
    decreases |runs|
  {
    var head := Repeat(runs[0].ch, runs[0].count);
    if k >= |head| {
      ExpandCharsFromRuns(runs[1..], k - |head|);
      var i :| 0 <= i < |runs[1..]| && runs[1..][i].ch == Expand(runs[1..])[k - |head|];
      assert runs[i + 1].ch == Expand(runs)[k];
    } else {
      assert runs[0].ch == Expand(runs)[k];
    }
  }

  /** The character of a run with a positive count occurs in the decoded string. */
  lemma {:induction false} RunCharOccurs(runs: seq<Run>, i: int)
    requires 0 <= i < |runs| && runs[i].count >= 1
    ensures runs[i].ch in Expand(runs)
    decreases i
  {
    var head := Repeat(runs[0].ch, runs[0].count);
    if i == 0 {
      assert Expand(runs)[0] == runs[0].ch;
    } else {
      RunCharOccurs(runs[1..], i - 1);
      var k :| 0 <= k < |Expand(runs[1..])| && Expand(runs[1..])[k] == runs[i].ch;
      assert Expand(runs)[|head| + k] == runs[i].ch;
    }
  }

  /** The loop of Python's `decode`: append `character * count` for each run
      in turn. */
  method Decode(runs: seq<Run>) returns (q: string)
    ensures q == Expand(runs)
  {
    q := "";
    for i := 0 to |runs|
      invariant q == Expand(runs[..i])
    {
      q := q + Repeat(runs[i].ch, runs[i].count);
      assert runs[..i + 1] == runs[..i] + [runs[i]];
      ExpandAppend(runs[..i], [runs[i]]);
    }
    assert runs[..|runs|] == runs;
  }

  // ---------------------------------------------------------------------------
  // Encoding

  lemma WellFormedTail(runs: seq<Run>)
    requires WellFormed(runs) && runs != []
    ensures WellFormed(runs[1..])
  {
  }

  /** A well-formed, non-empty run list decodes to a string that starts with
      the first run's character. */
  lemma ExpandHead(runs: seq<Run>)
    requires WellFormed(runs) && runs != []
    ensures |Expand(runs)| >= runs[0].count
    ensures Expand(runs)[0] == runs[0].ch
  {
  }

  /** Extending by one character extends the decoded string by that character. */
  lemma ExtendExpand(runs: seq<Run>, c: char)
    requires WellFormed(runs)
    ensures Expand(Extend(runs, c)) == Expand(runs) + [c]
  {
    if runs != [] && runs[|runs| - 1].ch == c {
      var prefix, last := runs[..|runs| - 1], runs[|runs| - 1];
      var longer := Run(c, last.count + 1);
      assert runs == prefix + [last];
      assert Extend(runs, c) == prefix + [longer];
      ExpandAppend(prefix, [last]);
      ExpandAppend(prefix, [longer]);
      ExpandSingle(last);
      ExpandSingle(longer);
      RepeatSnoc(c, last.count);
    } else {
      ExpandAppend(runs, [Run(c, 1)]);
      ExpandSingle(Run(c, 1));
    }
  }

  lemma ExpandSingle(run: Run)
    ensures Expand([run]) == Repeat(run.ch, run.count)
  {
    assert [run][1..] == [];
  }

  lemma RepeatSnoc(c: char, n: int)
    requires n >= 0
    ensures Repeat(c, n + 1) == Repeat(c, n) + [c]
  {
  }

  /** Extending keeps a run list well formed. */
  lemma ExtendWellFormed(runs: seq<Run>, c: char)
    requires WellFormed(runs)
    ensures WellFormed(Extend(runs, c))
    ensures |Extend(runs, c)| >= 1
  {
  }

  /** The encoding of every string is well formed. */
  lemma {:induction false} RunsWellFormed(s: string)
    ensures WellFormed(Runs(s))
    decreases |s|
  {
    if s != [] {
      RunsWellFormed(s[..|s| - 1]);
      ExtendWellFormed(Runs(s[..|s| - 1]), s[|s| - 1]);
    }
  }

  /** Round trip: decoding the encoding of a string gives back the string. */
  lemma {:induction false} RunsRoundTrip(s: string)
    ensures Expand(Runs(s)) == s
    decreases |s|
  {
    if s != [] {
      var init := s[..|s| - 1];
      RunsRoundTrip(init);
      RunsWellFormed(init);
      ExtendExpand(Runs(init), s[|s| - 1]);
      assert init + [s[|s| - 1]] == s;
    }
  }

  /** In a well-formed list, the character right after the first run differs
      from the first run's character. */
  lemma SecondRunBoundary(runs: seq<Run>)
    requires WellFormed(runs) && runs != []
    ensures |Expand(runs)| > runs[0].count ==> Expand(runs)[runs[0].count] != runs[0].ch
  {
    var n := runs[0].count;
    if |Expand(runs)| > n {
      assert Expand(runs) == Repeat(runs[0].ch, n) + Expand(runs[1..]);
      WellFormedTail(runs);
      ExpandHead(runs[1..]);
      assert Expand(runs)[n] == runs[1].ch;
    }
  }

  /** The first runs of two well-formed lists with the same decoding have the
      same character, and the first one is no shorter than the second. */
  lemma FirstRunNotShorter(a: seq<Run>, b: seq<Run>)
    requires WellFormed(a) && WellFormed(b) && Expand(a) == Expand(b)
    requires a != [] && b != []
    ensures a[0].ch == b[0].ch
    ensures a[0].count >= b[0].count
  {
    ExpandHead(a);
    ExpandHead(b);
    SecondRunBoundary(a);
    assert Expand(b) == Repeat(b[0].ch, b[0].count) + Expand(b[1..]);
  }

  /** Uniqueness: two well-formed run lists that decode to the same string are
      the same list. */
  lemma {:induction false} WellFormedUnique(a: seq<Run>, b: seq<Run>)
    requires WellFormed(a) && WellFormed(b) && Expand(a) == Expand(b)
    ensures a == b
    decreases |a|
  {
    if a == [] || b == [] {
      if a != [] {
        ExpandHead(a);
      } else if b != [] {
        ExpandHead(b);
      }
    } else {
      FirstRunNotShorter(a, b);
      FirstRunNotShorter(b, a);
      assert a[0] == b[0];
      var head := Repeat(a[0].ch, a[0].count);
      assert Expand(a) == head + Expand(a[1..]);
      assert Expand(b) == head + Expand(b[1..]);
      assert Expand(a[1..]) == Expand(a)[|head|..] == Expand(b[1..]);
      WellFormedTail(a);
      WellFormedTail(b);
      WellFormedUnique(a[1..], b[1..]);
      assert a == [a[0]] + a[1..] && b == [b[0]] + b[1..];
    }
  }

  /** The other round trip: re-encoding the decoding of a well-formed run list
      gives back the list. */
  lemma RunsOfExpand(runs: seq<Run>)
    requires WellFormed(runs)
    ensures Runs(Expand(runs)) == runs
  {
    var s := Expand(runs);
    RunsWellFormed(s);
    RunsRoundTrip(s);
    WellFormedUnique(Runs(s), runs);
  }

  /** The loop of Python's `encode`: one pass over the string, keeping
      the previous character (None before the first one) and its count, and
      closing a run whenever the character changes. */
  method Encode(s: string) returns (runs: seq<Run>)
    ensures runs == Runs(s)
    ensures s == [] ==> runs == []
    ensures Expand(runs) == s
    ensures WellFormed(runs)
    ensures TotalCount(runs) == |s|
    ensures forall i :: 0 <= i < |runs| ==> runs[i].ch in s
  {
    if s == [] {
      return [];
    }
    var count := 1;
    var prev: Option<char> := None;
    runs := [];
    var character := s[0];
    for i := 0 to |s|
      invariant count >= 1
      invariant i == 0 ==> prev == None && runs == []
      invariant i > 0 ==> prev == Some(s[i - 1]) && character == s[i - 1]
      invariant i > 0 ==> runs + [Run(s[i - 1], count)] == Runs(s[..i])
    {
      character := s[i];
      assert s[..i + 1][..i] == s[..i];
      if prev != Some(character) {
        if prev.Some? {
          runs := runs + [Run(prev.value, count)];
        }
        count := 1;
        prev := Some(character);
      } else {
        count := count + 1;
      }
    }
    runs := runs + [Run(character, count)];
    assert s[..|s|] == s;
    RunsWellFormed(s);
    RunsRoundTrip(s);
    ExpandLength(runs);
    forall i | 0 <= i < |runs|
      ensures runs[i].ch in s
    {
      RunCharOccurs(runs, i);
    }
  }
}

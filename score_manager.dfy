/** The high-score table: entries are added with a stripped name, the list
    is stably sorted by descending score and cut to the best ten; the
    qualification test and per-player and whole-table statistics read it.
    The JSON file is the `scores` sequence held in memory. */
module Scores {
  import opened Constants

  /** One stored entry: the name as stored (already stripped) and the score.
      The ISO date written beside them is not modelled. */
  datatype ScoreEntry = ScoreEntry(playerName: string, score: int)

  // ---------------------------------------------------------------------
  // Names
  // ---------------------------------------------------------------------

  /** The characters Python's `str.isspace` (and so `str.strip`) treats as
      whitespace. */
  predicate IsSpace(c: char)
  {
    c == ' ' || ('\t' <= c <= '\r') || ('\U{1c}' <= c <= '\U{1f}') ||
    c == '\U{85}' || c == '\U{a0}' || c == '\U{1680}' || ('\U{2000}' <= c <= '\U{200a}') ||
    c == '\U{2028}' || c == '\U{2029}' || c == '\U{202f}' || c == '\U{205f}' || c == '\U{3000}'
  }

  /** `str.lstrip()`. */
  function TrimLeft(s: string): (r: string)
    ensures |r| <= |s|
  {
    if s != [] && IsSpace(s[0]) then TrimLeft(s[1..]) else s
  }

  /** `str.rstrip()`. */
  function TrimRight(s: string): (r: string)
    ensures |r| <= |s|
  {
    if s != [] && IsSpace(s[|s| - 1]) then TrimRight(s[..|s| - 1]) else s
  }

  /** Left trimming cuts a whitespace-only prefix and stops at the first
      other character. */
  lemma {:induction false} TrimLeftSpec(s: string)
    ensures var r := TrimLeft(s); r == s[|s| - |r|..]
    ensures var r := TrimLeft(s); r == [] || !IsSpace(r[0])
    ensures var r := TrimLeft(s); forall i :: 0 <= i < |s| - |r| ==> IsSpace(s[i])
  {
    if s != [] && IsSpace(s[0]) {
      TrimLeftSpec(s[1..]);
    }
  }

  /** Right trimming cuts a whitespace-only suffix and stops at the last
      other character. */
  lemma {:induction false} TrimRightSpec(s: string)
    ensures var r := TrimRight(s); r == s[..|r|]
    ensures var r := TrimRight(s); r == [] || !IsSpace(r[|r| - 1])
    ensures var r := TrimRight(s); forall i :: |r| <= i < |s| ==> IsSpace(s[i])
  {
    if s != [] && IsSpace(s[|s| - 1]) {
      TrimRightSpec(s[..|s| - 1]);
    }
  }

  /** `str.strip()`. */
  function Strip(s: string): string
  {
    TrimRight(TrimLeft(s))
  }

  /** `not name.strip()`. */
  predicate IsBlank(s: string)
  {
    Strip(s) == []
  }

  /** The stripped name is the part of the input between the leading and
      the trailing whitespace: a slice of the input, starting at i, that
      neither starts nor ends with whitespace, with only whitespace cut off
      around it. */
  lemma StripSpec(s: string) returns (i: nat)
    ensures var r := Strip(s); i + |r| <= |s| && r == s[i..i + |r|]
    ensures var r := Strip(s); forall k :: 0 <= k < i || i + |r| <= k < |s| ==> IsSpace(s[k])
    ensures var r := Strip(s); r == [] || (!IsSpace(r[0]) && !IsSpace(r[|r| - 1]))
  {
    var l := TrimLeft(s);
    TrimLeftSpec(s);
    TrimRightSpec(l);
    i := TrimmedSlice(s, l, TrimRight(l));
  }

  /** The sequence facts behind StripSpec: a suffix l of s cut after a
      whitespace-only prefix, and a prefix r of l cut before a
      whitespace-only suffix, form a slice of s. */
  lemma TrimmedSlice(s: string, l: string, r: string) returns (i: nat)
    requires |l| <= |s| && l == s[|s| - |l|..] && (l == [] || !IsSpace(l[0]))
    requires forall k :: 0 <= k < |s| - |l| ==> IsSpace(s[k])
    requires |r| <= |l| && r == l[..|r|] && (r == [] || !IsSpace(r[|r| - 1]))
    requires forall k :: |r| <= k < |l| ==> IsSpace(l[k])
    ensures i + |r| <= |s| && r == s[i..i + |r|]
    ensures forall k :: 0 <= k < i || i + |r| <= k < |s| ==> IsSpace(s[k])
    ensures r == [] || (!IsSpace(r[0]) && !IsSpace(r[|r| - 1]))
  {
    i := |s| - |l|;
    assert r == s[i..i + |r|];
    forall k | i + |r| <= k < |s| ensures IsSpace(s[k]) {
      assert s[k] == l[k - i];
    }
    if r != [] {
      assert r[0] == l[0];
    }
  }

  /** A name is blank exactly when it is made of whitespace only. */
  lemma BlankIff(s: string)
    ensures IsBlank(s) <==> forall k :: 0 <= k < |s| ==> IsSpace(s[k])
  {
    var i := StripSpec(s);
    var r := Strip(s);
    if r != [] {
      assert r[0] == s[i];
    }
  }

  /** Stripping twice strips nothing more. */
  lemma StripIdempotent(s: string)
    ensures Strip(Strip(s)) == Strip(s)
  {
    var r := Strip(s);
    var i := StripSpec(s);
    if r != [] {
      assert TrimLeft(r) == r;
      assert TrimRight(r) == r;
    }
  }

  /** `str.lower()` on the ASCII capitals. */
  function LowerChar(c: char): (d: char)
    ensures 'A' <= c <= 'Z' ==> 'a' <= d <= 'z'
    ensures !('A' <= c <= 'Z') ==> d == c
  {
    if 'A' <= c <= 'Z' then c - 'A' + 'a' else c
  }

  function Lower(s: string): (r: string)
    ensures |r| == |s| && forall k :: 0 <= k < |s| ==> r[k] == LowerChar(s[k])
  {
    seq(|s|, k requires 0 <= k < |s| => LowerChar(s[k]))
  }

  /** Lowering twice lowers nothing more, so matching `name` and matching
      its lower-case form select the same entries. */
  lemma LowerIdempotent(s: string)
    ensures Lower(Lower(s)) == Lower(s)
  {
  }

  // ---------------------------------------------------------------------
  // The stable descending sort
  // ---------------------------------------------------------------------

  predicate SortedDesc(s: seq<ScoreEntry>)
  {
    forall i, j :: 0 <= i < j < |s| ==> s[i].score >= s[j].score
  }

  /** The entries with score v, in their order: a stable sort keeps each
      such class in its input order. */
  function WithScore(s: seq<ScoreEntry>, v: int): seq<ScoreEntry>
  {
    if s == [] then [] else (if s[0].score == v then [s[0]] else []) + WithScore(s[1..], v)
  }

  /** How many leading entries score at least v. */
  function InsertPos(t: seq<ScoreEntry>, v: int): (p: nat)
    ensures p <= |t|
  {
    if t != [] && t[0].score >= v then 1 + InsertPos(t[1..], v) else 0
  }

  /** Inserting e into a descending list after every entry whose score is
      at least e's. */
  function Insert(t: seq<ScoreEntry>, e: ScoreEntry): seq<ScoreEntry>
  {
    if t != [] && t[0].score >= e.score then [t[0]] + Insert(t[1..], e) else [e] + t
  }

  /** `list.sort(key=score, reverse=True)`, which is stable: insertion of
      each entry, in list order, into the sorted prefix. */
  function SortDesc(s: seq<ScoreEntry>): seq<ScoreEntry>
  {
    if s == [] then [] else Insert(SortDesc(s[..|s| - 1]), s[|s| - 1])
  }

  lemma {:induction false} WithScoreConcat(a: seq<ScoreEntry>, b: seq<ScoreEntry>, v: int)
    ensures WithScore(a + b, v) == WithScore(a, v) + WithScore(b, v)
  {
    if a != [] {
      assert (a + b)[1..] == a[1..] + b;
      WithScoreConcat(a[1..], b, v);
    } else {
      assert a + b == b;
    }
  }

  /** Insert puts e at InsertPos: after the entries scoring at least e's
      score, which on a descending list are all the entries before it. */
  lemma InsertShape(t: seq<ScoreEntry>, e: ScoreEntry)
    ensures var p := InsertPos(t, e.score);
      Insert(t, e) == t[..p] + [e] + t[p..] &&
      (forall i :: 0 <= i < p ==> t[i].score >= e.score)
    ensures SortedDesc(t) ==> forall i :: InsertPos(t, e.score) <= i < |t| ==> t[i].score < e.score
  {
    InsertAt(t, e);
    InsertPosSplits(t, e.score);
  }

  lemma {:induction false} InsertAt(t: seq<ScoreEntry>, e: ScoreEntry)
    ensures var p := InsertPos(t, e.score); Insert(t, e) == t[..p] + [e] + t[p..]
  {
    if t != [] && t[0].score >= e.score {
      var rest := t[1..];
      InsertAt(rest, e);
      var p := InsertPos(rest, e.score);
      assert t[..p + 1] == [t[0]] + rest[..p];
      assert t[p + 1..] == rest[p..];
    }
  }

  /** The entries before InsertPos score at least v; on a descending list
      the ones from it on score below v. */
  lemma {:induction false} InsertPosSplits(t: seq<ScoreEntry>, v: int)
    ensures forall i :: 0 <= i < InsertPos(t, v) ==> t[i].score >= v
    ensures SortedDesc(t) ==> forall i :: InsertPos(t, v) <= i < |t| ==> t[i].score < v
  {
    if t != [] && t[0].score >= v {
      var rest := t[1..];
      InsertPosSplits(rest, v);
      var p := InsertPos(rest, v);
      assert InsertPos(t, v) == p + 1;
      forall i | 0 <= i < p + 1 ensures t[i].score >= v {
        if i > 0 {
          assert t[i] == rest[i - 1];
        }
      }
      if SortedDesc(t) {
        SortedTail(t);
        forall i | p + 1 <= i < |t| ensures t[i].score < v {
          assert t[i] == rest[i - 1];
        }
      }
    } else if t != [] && SortedDesc(t) {
      assert InsertPos(t, v) == 0;
      forall i | 0 <= i < |t| ensures t[i].score < v {
        assert t[i].score <= t[0].score;
      }
    }
  }

  lemma SortedTail(a: seq<ScoreEntry>)
    requires SortedDesc(a) && a != []
    ensures SortedDesc(a[1..])
  {
    forall i, j | 0 <= i < j < |a| - 1 ensures a[1..][i].score >= a[1..][j].score {
      assert a[1..][i] == a[i + 1] && a[1..][j] == a[j + 1];
    }
  }

  /** Insertion adds exactly e. */
  lemma InsertPermutes(t: seq<ScoreEntry>, e: ScoreEntry)
    ensures |Insert(t, e)| == |t| + 1 && multiset(Insert(t, e)) == multiset(t) + multiset{e}
  {
    InsertShape(t, e);
    var p := InsertPos(t, e.score);
    assert t == t[..p] + t[p..];
  }

  /** Inserting into a descending list keeps it descending. */
  lemma InsertSorted(t: seq<ScoreEntry>, e: ScoreEntry)
    requires SortedDesc(t)
    ensures SortedDesc(Insert(t, e))
  {
    InsertShape(t, e);
    SortedSplice(t, e, InsertPos(t, e.score), Insert(t, e));
  }

  lemma SortedSplice(t: seq<ScoreEntry>, e: ScoreEntry, p: nat, r: seq<ScoreEntry>)
    requires SortedDesc(t) && p <= |t| && r == t[..p] + [e] + t[p..]
    requires forall i :: 0 <= i < p ==> t[i].score >= e.score
    requires forall i :: p <= i < |t| ==> t[i].score < e.score
    ensures SortedDesc(r)
  {
    forall i, j | 0 <= i < j < |r| ensures r[i].score >= r[j].score {
      var ti := if i < p then t[i] else if i == p then e else t[i - 1];
      var tj := if j < p then t[j] else if j == p then e else t[j - 1];
      assert r[i] == ti && r[j] == tj;
    }
  }

  /** Inserting into a descending list adds e at the end of its score
      class and leaves every other class alone. */
  lemma InsertClasses(t: seq<ScoreEntry>, e: ScoreEntry, v: int)
    requires SortedDesc(t)
    ensures WithScore(Insert(t, e), v) == WithScore(t, v) + (if e.score == v then [e] else [])
  {
    InsertShape(t, e);
    ClassesSplice(t, e, InsertPos(t, e.score), Insert(t, e), v);
  }

  lemma ClassesSplice(t: seq<ScoreEntry>, e: ScoreEntry, p: nat, r: seq<ScoreEntry>, v: int)
    requires p <= |t| && r == t[..p] + [e] + t[p..]
    requires forall i :: p <= i < |t| ==> t[i].score < e.score
    ensures WithScore(r, v) == WithScore(t, v) + (if e.score == v then [e] else [])
  {
    var a, b := t[..p], t[p..];
    var c := if e.score == v then [e] else [];
    assert t == a + b;
    WithScoreConcat(a, [e], v);
    WithScoreConcat(a + [e], b, v);
    WithScoreConcat(a, b, v);
    assert WithScore([e], v) == c by {
      assert [e][1..] == [];
    }
    var wa, wb := WithScore(a, v), WithScore(b, v);
    assert WithScore(t, v) == wa + wb;
    assert WithScore(r, v) == wa + c + wb;
    if e.score == v {
      WithScoreBelow(b, v);
      assert wb == [];
      assert wa + c + wb == wa + c && wa + wb == wa;
    } else {
      assert c == [];
      assert wa + c == wa && (wa + wb) + c == wa + wb;
    }
  }

  /** A list whose scores are all below v has an empty class v. */
  lemma {:induction false} WithScoreBelow(t: seq<ScoreEntry>, v: int)
    requires forall i :: 0 <= i < |t| ==> t[i].score < v
    ensures WithScore(t, v) == []
  {
    if t != [] {
      WithScoreBelow(t[1..], v);
    }
  }

  lemma {:induction false} WithScoreAppend(s: seq<ScoreEntry>, e: ScoreEntry, v: int)
    ensures WithScore(s + [e], v) == WithScore(s, v) + (if e.score == v then [e] else [])
  {
    WithScoreConcat(s, [e], v);
    assert [e][1..] == [];
  }

  /** The sort is sorted, a permutation, and stable: every score class keeps
      its input order. */
  lemma {:induction false} SortDescSpec(s: seq<ScoreEntry>)
    ensures SortedDesc(SortDesc(s))
    ensures multiset(SortDesc(s)) == multiset(s)
    ensures forall v :: WithScore(SortDesc(s), v) == WithScore(s, v)
  {
    if s != [] {
      var pre, last := s[..|s| - 1], s[|s| - 1];
      assert s == pre + [last];
      SortDescSpec(pre);
      var t := SortDesc(pre);
      InsertSorted(t, last);
      InsertPermutes(t, last);
      forall v ensures WithScore(SortDesc(s), v) == WithScore(s, v) {
        InsertClasses(t, last, v);
        WithScoreAppend(pre, last, v);
      }
    }
  }

  /** Two descending lists with the same score classes are equal, so the
      properties of SortDescSpec pin the sort down completely. */
  lemma {:induction false} StableSortUnique(a: seq<ScoreEntry>, b: seq<ScoreEntry>)
    requires SortedDesc(a) && SortedDesc(b)
    requires forall v :: WithScore(a, v) == WithScore(b, v)
    ensures a == b
    decreases |a|
  {
    if a == [] || b == [] {
      if a != [] || b != [] {
        ClassOfHead(a);
        ClassOfHead(b);
        assert false;
      }
    } else {
      HeadIsTop(a, b[0].score);
      HeadIsTop(b, a[0].score);
      var m := a[0].score;
      assert b[0].score == m;
      assert a[0] == b[0] by {
        assert WithScore(a, m)[0] == a[0];
        assert WithScore(b, m)[0] == b[0];
      }
      forall v ensures WithScore(a[1..], v) == WithScore(b[1..], v) {
        var x, y := WithScore(a[1..], v), WithScore(b[1..], v);
        if m == v {
          assert WithScore(a, v) == [a[0]] + x && WithScore(b, v) == [b[0]] + y;
          assert ([a[0]] + x)[1..] == x && ([b[0]] + y)[1..] == y;
        } else {
          assert WithScore(a, v) == [] + x && WithScore(b, v) == [] + y;
          assert [] + x == x && [] + y == y;
        }
      }
      SortedTail(a);
      SortedTail(b);
      StableSortUnique(a[1..], b[1..]);
      assert a == [a[0]] + a[1..] && b == [b[0]] + b[1..];
    }
  }

  /** The head of a list is in its own score class. */
  lemma ClassOfHead(a: seq<ScoreEntry>)
    ensures a != [] ==> WithScore(a, a[0].score) != [] && WithScore(a, a[0].score)[0] == a[0]
  {
  }

  /** On a descending list a score class that is not empty holds a score
      no higher than the head's. */
  lemma {:induction false} HeadIsTop(a: seq<ScoreEntry>, v: int)
    requires SortedDesc(a) && a != [] && WithScore(a, v) != []
    ensures v <= a[0].score
  {
    if a[0].score != v && |a| > 1 {
      var rest := a[1..];
      SortedTail(a);
      HeadIsTop(rest, v);
      assert rest[0] == a[1];
    }
  }

  // ---------------------------------------------------------------------
  // add_score, is_high_score
  // ---------------------------------------------------------------------

  function Truncate(s: seq<ScoreEntry>): (r: seq<ScoreEntry>)
    ensures |r| == if |s| > MAX_SCORES then MAX_SCORES else |s|
    ensures r == s[..|r|]
  {
    if |s| > MAX_SCORES then s[..MAX_SCORES] else s
  }

  /** The table after `add_score` of a non-blank name: the entry with the
      stripped name is appended, the list is sorted and cut to ten. */
  function Added(scores: seq<ScoreEntry>, name: string, score: int): seq<ScoreEntry>
  {
    Truncate(SortDesc(scores + [ScoreEntry(Strip(name), score)]))
  }

  /** After `add_score` the table is sorted and holds min(n + 1, 10)
      entries; they are the best ones, each scoring at least as much as
      every entry cut off, and together with those they are exactly the
      old entries plus the new one. */
  lemma AddedSpec(scores: seq<ScoreEntry>, name: string, score: int)
    ensures var r := Added(scores, name, score);
      var all := SortDesc(scores + [ScoreEntry(Strip(name), score)]);
      SortedDesc(r) &&
      |r| == (if |scores| + 1 > MAX_SCORES then MAX_SCORES else |scores| + 1) &&
      r == all[..|r|] && multiset(r) + multiset(all[|r|..]) == multiset(scores) + multiset{ScoreEntry(Strip(name), score)} &&
      (forall i, j :: 0 <= i < |r| <= j < |all| ==> r[i].score >= all[j].score)
  {
    var e := ScoreEntry(Strip(name), score);
    var all := SortDesc(scores + [e]);
    SortDescSpec(scores + [e]);
    var r := Added(scores, name, score);
    assert all == r + all[|r|..];
    assert multiset(scores + [e]) == multiset(scores) + multiset{e};
  }

  /** A sorted table is left as it is by the sort. */
  lemma {:induction false} SortedFixed(s: seq<ScoreEntry>)
    requires SortedDesc(s)
    ensures SortDesc(s) == s
  {
    SortDescSpec(s);
    StableSortUnique(SortDesc(s), s);
  }

  /** On a sorted table the sort inserts the new entry after every entry
      with an equal or higher score: ties keep the older entries first. */
  lemma AddedInsertsAfterTies(scores: seq<ScoreEntry>, name: string, score: int)
    requires SortedDesc(scores)
    ensures var e := ScoreEntry(Strip(name), score);
      var p := InsertPos(scores, score);
      SortDesc(scores + [e]) == scores[..p] + [e] + scores[p..] &&
      (forall i :: 0 <= i < p ==> scores[i].score >= score) &&
      (forall i :: p <= i < |scores| ==> scores[i].score < score)
  {
    var e := ScoreEntry(Strip(name), score);
    var s := scores + [e];
    assert s[..|s| - 1] == scores;
    SortedFixed(scores);
    InsertShape(scores, e);
  }

  /** `is_high_score`: a free slot, or a score above the last entry's. */
  predicate Qualifies(scores: seq<ScoreEntry>, score: int)
  {
    |scores| < MAX_SCORES || score > scores[|scores| - 1].score
  }

  /** On a sorted table of at most ten entries, a score qualifies exactly
      when adding it would keep the new entry: then the table gains one
      copy of it; otherwise adding it leaves the table unchanged. */
  lemma QualifiesIff(scores: seq<ScoreEntry>, name: string, score: int)
    requires SortedDesc(scores) && |scores| <= MAX_SCORES
    ensures var e := ScoreEntry(Strip(name), score);
      var r := Added(scores, name, score);
      (Qualifies(scores, score) ==> multiset(r)[e] == multiset(scores)[e] + 1) &&
      (!Qualifies(scores, score) ==> r == scores)
  {
    if Qualifies(scores, score) {
      QualifyingAdded(scores, name, score);
    } else {
      LosingUnchanged(scores, name, score);
    }
  }

  lemma QualifyingAdded(scores: seq<ScoreEntry>, name: string, score: int)
    requires SortedDesc(scores) && |scores| <= MAX_SCORES && Qualifies(scores, score)
    ensures var e := ScoreEntry(Strip(name), score);
      multiset(Added(scores, name, score))[e] == multiset(scores)[e] + 1
  {
    var e := ScoreEntry(Strip(name), score);
    var all := AddedAsInsert(scores, name, score);
    var p := InsertPos(scores, score);
    var r := Added(scores, name, score);
    if |scores| < MAX_SCORES {
      FreeSlotKeeps(scores, e, p, r);
    } else {
      assert p < |scores|;
      BeatLastKeeps(scores, e, p, r);
    }
  }

  lemma LosingUnchanged(scores: seq<ScoreEntry>, name: string, score: int)
    requires SortedDesc(scores) && |scores| <= MAX_SCORES && !Qualifies(scores, score)
    ensures Added(scores, name, score) == scores
  {
    var e := ScoreEntry(Strip(name), score);
    var all := AddedAsInsert(scores, name, score);
    LosingDropped(scores, e, InsertPos(scores, score));
  }

  /** The table after adding, as the truncation of the insertion. */
  lemma AddedAsInsert(scores: seq<ScoreEntry>, name: string, score: int) returns (all: seq<ScoreEntry>)
    requires SortedDesc(scores)
    ensures var p := InsertPos(scores, score);
      all == scores[..p] + [ScoreEntry(Strip(name), score)] + scores[p..] &&
      Added(scores, name, score) == Truncate(all) &&
      (forall i :: 0 <= i < p ==> scores[i].score >= score) &&
      (forall i :: p <= i < |scores| ==> scores[i].score < score)
  {
    AddedInsertsAfterTies(scores, name, score);
    all := SortDesc(scores + [ScoreEntry(Strip(name), score)]);
  }

  /** With a free slot nothing is cut: the new entry is added. */
  lemma FreeSlotKeeps(scores: seq<ScoreEntry>, e: ScoreEntry, p: nat, r: seq<ScoreEntry>)
    requires p <= |scores| < MAX_SCORES
    requires r == Truncate(scores[..p] + [e] + scores[p..])
    ensures multiset(r)[e] == multiset(scores)[e] + 1
  {
    var all := scores[..p] + [e] + scores[p..];
    assert r == all;
    assert scores == scores[..p] + scores[p..];
    assert multiset(all) == multiset(scores) + multiset{e};
  }

  /** In a full table a new entry placed before the last one pushes the
      last one out and so adds one copy of itself. */
  lemma BeatLastKeeps(scores: seq<ScoreEntry>, e: ScoreEntry, p: nat, r: seq<ScoreEntry>)
    requires |scores| == MAX_SCORES && p < |scores|
    requires e.score > scores[|scores| - 1].score
    requires r == Truncate(scores[..p] + [e] + scores[p..])
    ensures multiset(r)[e] == multiset(scores)[e] + 1
  {
    var n := |scores|;
    var last := scores[n - 1];
    var pre, mid := scores[..p], scores[p..n - 1];
    assert scores[p..] == mid + [last];
    assert r == pre + [e] + mid;
    assert scores == pre + mid + [last];
    assert last != e;
    assert multiset(r) == multiset(pre) + multiset{e} + multiset(mid);
    assert multiset(scores) == multiset(pre) + multiset(mid) + multiset{last};
  }

  /** In a full table a new entry placed after every entry is the one cut. */
  lemma LosingDropped(scores: seq<ScoreEntry>, e: ScoreEntry, p: nat)
    requires SortedDesc(scores) && |scores| == MAX_SCORES && p <= |scores|
    requires e.score <= scores[|scores| - 1].score
    requires forall i :: p <= i < |scores| ==> scores[i].score < e.score
    ensures Truncate(scores[..p] + [e] + scores[p..]) == scores
  {
    assert p == |scores|;
    var all := scores[..p] + [e] + scores[p..];
    assert all[..MAX_SCORES] == scores;
  }

  /** `get_high_scores`: the (name, score) pairs in table order. */
  function HighScores(scores: seq<ScoreEntry>): (r: seq<(string, int)>)
    ensures |r| == |scores|
    ensures forall k :: 0 <= k < |r| ==> r[k] == (scores[k].playerName, scores[k].score)
  {
    seq(|scores|, k requires 0 <= k < |scores| => (scores[k].playerName, scores[k].score))
  }

  // ---------------------------------------------------------------------
  // Statistics
  // ---------------------------------------------------------------------

  /** `get_player_stats` without the rounded float average. */
  datatype PlayerStats = PlayerStats(gamesPlayed: nat, highestScore: int, totalScore: int)

  /** The entries whose name matches `name` ignoring case, in table order. */
  function Matching(scores: seq<ScoreEntry>, name: string): (r: seq<ScoreEntry>)
    ensures |r| <= |scores|
    ensures forall e :: e in r <==> e in scores && Lower(e.playerName) == Lower(name)
  {
    if scores == [] then []
    else
      var last := scores[|scores| - 1];
      assert scores == scores[..|scores| - 1] + [last];
      Matching(scores[..|scores| - 1], name) + (if Lower(last.playerName) == Lower(name) then [last] else [])
  }

  function Total(s: seq<ScoreEntry>): int
  {
    if s == [] then 0 else Total(s[..|s| - 1]) + s[|s| - 1].score
  }

  /** Python's `max` over the scores of a non-empty list. */
  function Highest(s: seq<ScoreEntry>): (m: int)
    requires s != []
    ensures exists k :: 0 <= k < |s| && s[k].score == m
    ensures forall k :: 0 <= k < |s| ==> s[k].score <= m
  {
    if |s| == 1 then s[0].score
    else
      var m := Highest(s[..|s| - 1]);
      assert forall k :: 0 <= k < |s| - 1 ==> s[..|s| - 1][k] == s[k];
      if s[|s| - 1].score > m then s[|s| - 1].score else m
  }

  function PlayerStatsOf(scores: seq<ScoreEntry>, name: string): PlayerStats
  {
    var m := Matching(scores, name);
    if m == [] then PlayerStats(0, 0, 0) else PlayerStats(|m|, Highest(m), Total(m))
  }

  /** The total of a list never exceeds its length times its best score. */
  lemma {:induction false} TotalBounded(s: seq<ScoreEntry>, m: int)
    requires forall k :: 0 <= k < |s| ==> s[k].score <= m
    ensures Total(s) <= |s| * m
  {
    if s != [] {
      var pre := s[..|s| - 1];
      assert forall k :: 0 <= k < |pre| ==> pre[k] == s[k];
      TotalBounded(pre, m);
    }
  }

  /** Player statistics: no game means all zeros; otherwise the count of
      matching entries, a best score that one of them reached and none
      exceeds, and a total no more than count times best (the average
      never exceeds the best). Matching ignores case. */
  lemma PlayerStatsSpec(scores: seq<ScoreEntry>, name: string)
    ensures var st := PlayerStatsOf(scores, name);
      var m := Matching(scores, name);
      st.gamesPlayed == |m| &&
      (st.gamesPlayed == 0 ==> st == PlayerStats(0, 0, 0)) &&
      (st.gamesPlayed > 0 ==>
         (exists e :: e in m && e.score == st.highestScore) &&
         (forall e :: e in m ==> e.score <= st.highestScore) &&
         st.totalScore == Total(m) && st.totalScore <= st.gamesPlayed * st.highestScore) &&
      PlayerStatsOf(scores, Lower(name)) == st
  {
    var m := Matching(scores, name);
    LowerIdempotent(name);
    assert Matching(scores, Lower(name)) == m by {
      MatchingSameKey(scores, name, Lower(name));
    }
    if m != [] {
      var h := Highest(m);
      TotalBounded(m, h);
      forall e | e in m ensures e.score <= h {
        var k :| 0 <= k < |m| && m[k] == e;
      }
      var k :| 0 <= k < |m| && m[k].score == h;
      assert m[k] in m;
    }
  }

  /** Two names with the same lower-case form match the same entries. */
  lemma {:induction false} MatchingSameKey(scores: seq<ScoreEntry>, a: string, b: string)
    requires Lower(a) == Lower(b)
    ensures Matching(scores, a) == Matching(scores, b)
  {
    if scores != [] {
      MatchingSameKey(scores[..|scores| - 1], a, b);
    }
  }

  /** `get_database_stats` without the file's time stamp. */
  datatype DatabaseStats = DatabaseStats(totalGames: nat, uniquePlayers: nat, highestScore: int)

  function Names(scores: seq<ScoreEntry>): set<string>
  {
    set e | e in scores :: e.playerName
  }

  function DatabaseStatsOf(scores: seq<ScoreEntry>): DatabaseStats
  {
    if scores == [] then DatabaseStats(0, 0, 0)
    else DatabaseStats(|scores|, |Names(scores)|, Highest(scores))
  }

  /** A list has no more distinct names than entries. */
  lemma {:induction false} NamesBounded(scores: seq<ScoreEntry>)
    ensures |Names(scores)| <= |scores|
  {
    if scores != [] {
      var pre := scores[..|scores| - 1];
      var last := scores[|scores| - 1];
      assert scores == pre + [last];
      NamesBounded(pre);
      assert Names(scores) == Names(pre) + {last.playerName};
    }
  }

  /** Table statistics: an empty table gives all zeros; otherwise one game
      per entry, between one and that many distinct names (compared with
      case), and the best score in the table. */
  lemma DatabaseStatsSpec(scores: seq<ScoreEntry>)
    ensures var st := DatabaseStatsOf(scores);
      st.totalGames == |scores| &&
      (scores == [] ==> st == DatabaseStats(0, 0, 0)) &&
      (scores != [] ==>
         1 <= st.uniquePlayers <= st.totalGames &&
         (exists k :: 0 <= k < |scores| && scores[k].score == st.highestScore) &&
         (forall k :: 0 <= k < |scores| ==> scores[k].score <= st.highestScore))
  {
    NamesBounded(scores);
    if scores != [] {
      assert scores[0].playerName in Names(scores);
    }
  }

  // ---------------------------------------------------------------------
  // The manager
  // ---------------------------------------------------------------------

  class ScoreManager {
    /** The `scores` list of the database file. */
    var scores: seq<ScoreEntry>

    /** `__init__` over a database that holds `stored` (empty when the
        file had to be created). */
    constructor (stored: seq<ScoreEntry>)
      ensures scores == stored
    {
      scores := stored;
    }

    /** `add_score`: a blank name is refused and changes nothing. */
    method AddScore(name: string, score: int) returns (ok: bool)
      modifies this
      ensures ok <==> !IsBlank(name)
      ensures scores == if ok then Added(old(scores), name, score) else old(scores)
    {
      var stripped := Strip(name);
      if stripped == [] {
        return false;
      }
      var list := scores + [ScoreEntry(stripped, score)];
      list := SortDesc(list);
      if |list| > MAX_SCORES {
        list := list[..MAX_SCORES];
      }
      scores := list;
      return true;
    }

    /** `get_high_scores`. */
    method GetHighScores() returns (r: seq<(string, int)>)
      ensures |r| == |scores|
      ensures forall k :: 0 <= k < |r| ==> r[k] == (scores[k].playerName, scores[k].score)
    {
      r := HighScores(scores);
    }

    /** `get_player_stats`, minus the average. */
    method GetPlayerStats(name: string) returns (st: PlayerStats)
      ensures st == PlayerStatsOf(scores, name)
    {
      var m := Matching(scores, name);
      if m == [] {
        return PlayerStats(0, 0, 0);
      }
      st := PlayerStats(|m|, Highest(m), Total(m));
    }

    /** `get_database_stats`, minus the time stamp. */
    method GetDatabaseStats() returns (st: DatabaseStats)
      ensures st == DatabaseStatsOf(scores)
    {
      if scores == [] {
        return DatabaseStats(0, 0, 0);
      }
      st := DatabaseStats(|scores|, |Names(scores)|, Highest(scores));
    }

    /** `is_high_score`. */
    method IsHighScore(score: int) returns (b: bool)
      ensures b == Qualifies(scores, score)
    {
      var high := HighScores(scores);
      if |high| < MAX_SCORES {
        return true;
      }
      return score > high[|high| - 1].1;
    }

    /** `clear_all_scores`. */
    method ClearAllScores()
      modifies this
      ensures scores == []
    {
      scores := [];
    }
  }

  /** Whatever the file held, one successful `add_score` leaves a sorted
      table of at most ten entries, and further ones keep it so. */
  lemma AddedKeepsTable(scores: seq<ScoreEntry>, name: string, score: int)
    ensures SortedDesc(Added(scores, name, score)) && |Added(scores, name, score)| <= MAX_SCORES
  {
    AddedSpec(scores, name, score);
  }
}

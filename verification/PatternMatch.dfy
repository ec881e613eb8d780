/** pattern_match, the wildcard matcher of f_findfirst and f_findnext. Strings are sequences of
    characters without the terminator; `fold` is the case folding of get_achar. */
module PatternMatch {

  const FIND_RECURS: nat := 4
  const QUESTION: int := 0x3F
  const STAR: int := 0x2A

  type Text = s: seq<int> | forall i :: 0 <= i < |s| ==> s[i] != 0

  predicate Wild(c: int) { c == QUESTION || c == STAR }

  ghost predicate FoldOk(fold: int -> int) {
    forall c :: fold(c) == 0 <==> c == 0
  }

  /** The declarative meaning of a pattern: `*` stands for any characters, `?` for any one. */
  ghost predicate Glob(fold: int -> int, p: seq<int>, n: seq<int>)
    decreases |p| + |n|
  {
    if p == [] then n == []
    else if p[0] == STAR then Glob(fold, p[1..], n) || (n != [] && Glob(fold, p, n[1..]))
    else n != [] && (p[0] == QUESTION || fold(p[0]) == fold(n[0])) && Glob(fold, p[1..], n[1..])
  }

  ghost predicate AllWild(w: seq<int>) {
    forall i :: 0 <= i < |w| ==> Wild(w[i])
  }

  function Questions(w: seq<int>): nat {
    if w == [] then 0 else (if w[0] == QUESTION then 1 else 0) + Questions(w[1..])
  }

  /** `w` wildcards in front of `p`: they take as many characters as there are `?`, or at least as many
      if there is a `*`. */
  lemma {:induction false} GlobWild(fold: int -> int, w: seq<int>, p: seq<int>, n: seq<int>)
    requires AllWild(w)
    ensures Glob(fold, w + p, n) <==>
            if STAR in w then exists k :: Questions(w) <= k <= |n| && Glob(fold, p, n[k..])
            else Questions(w) <= |n| && Glob(fold, p, n[Questions(w)..])
    decreases |w| + |n|
  {
    if w == [] {
      assert w + p == p;
      assert n[0..] == n;
    } else {
      var w1 := w[1..];
      assert (w + p)[1..] == w1 + p && (w + p)[0] == w[0];
      assert w == [w[0]] + w1;
      if w[0] == QUESTION {
        if n != [] {
          GlobWild(fold, w1, p, n[1..]);
          WildShift(fold, p, n, Questions(w1));
        }
      } else {
        GlobWild(fold, w1, p, n);
        if n != [] {
          GlobWild(fold, w, p, n[1..]);
          WildShift(fold, p, n, Questions(w1));
        }
        StarFirst(fold, w1, p, n);
      }
    }
  }

  lemma WildShift(fold: int -> int, p: seq<int>, n: seq<int>, q: nat)
    requires n != []
    ensures (exists k :: q <= k <= |n[1..]| && Glob(fold, p, n[1..][k..])) <==>
              (exists k :: q + 1 <= k <= |n| && Glob(fold, p, n[k..]))
    ensures q <= |n[1..]| ==> n[1..][q..] == n[q + 1..]
  {
    forall k | 0 <= k <= |n[1..]|
      ensures n[1..][k..] == n[k + 1..]
    {
    }
    if k :| q + 1 <= k <= |n| && Glob(fold, p, n[k..]) {
      assert Glob(fold, p, n[1..][k - 1..]);
    }
  }

  /** A leading `*` adds a lower bound that the other wildcards already give, or lifts the upper one. */
  lemma StarFirst(fold: int -> int, w1: seq<int>, p: seq<int>, n: seq<int>)
    ensures
      var q := Questions(w1);
      var least := if STAR in w1 then exists k :: q <= k <= |n| && Glob(fold, p, n[k..])
                   else q <= |n| && Glob(fold, p, n[q..]);
      (least || (n != [] && exists k :: q + 1 <= k <= |n| && Glob(fold, p, n[k..]))) <==>
          exists k :: q <= k <= |n| && Glob(fold, p, n[k..])
  {
    var q := Questions(w1);
    if k :| q <= k <= |n| && Glob(fold, p, n[k..]) {
      assert k == q || q + 1 <= k;
    }
  }

  // ------------------------------------------------------------------------------------------
  // How the code reads a run of wildcards

  /** The number that a run of wildcards is turned into: the low 8 bits are meant to count the `?`, bit
      8 to say that there is a `*`. */
  function SkipOf(w: seq<int>): nat {
    if w == [] then 0
    else
      var s := SkipOf(w[..|w| - 1]);
      if w[|w| - 1] == QUESTION then s + 1 else SetBit8(s)
  }

  function SetBit8(s: nat): nat {
    if s / 0x100 % 2 == 1 then s else s + 0x100
  }

  /** The pattern that the number stands for. */
  function Prefix(skip: nat): seq<int> {
    seq(skip % 0x100, _ => QUESTION) + if skip >= 0x100 then [STAR] else []
  }

  /** Length of the run of wildcards at the start. */
  function WildLength(p: seq<int>): (k: nat)
    ensures k <= |p| && AllWild(p[..k]) && (k < |p| ==> !Wild(p[k]))
    ensures p != [] && Wild(p[0]) <==> k > 0
  {
    if p == [] || !Wild(p[0]) then 0
    else
      var k := 1 + WildLength(p[1..]);
      assert p[..k] == [p[0]] + p[1..][..k - 1];
      k
  }

  /** The pattern as the code understands it. */
  function Understood(p: seq<int>): seq<int> {
    if p == [] then []
    else if Wild(p[0]) then Prefix(SkipOf(p[..WildLength(p)])) + Understood(p[WildLength(p)..])
    else [p[0]] + Understood(p[1..])
  }

  /** Number of runs of wildcards. */
  function Runs(p: seq<int>): nat {
    if p == [] then 0
    else if Wild(p[0]) then 1 + Runs(p[WildLength(p)..])
    else Runs(p[1..])
  }

  lemma {:induction false} QuestionsLast(w: seq<int>)
    requires w != []
    ensures Questions(w) == Questions(w[..|w| - 1]) + (if w[|w| - 1] == QUESTION then 1 else 0)
  {
    if |w| > 1 {
      QuestionsLast(w[1..]);
      assert w[1..][..|w| - 2] == w[..|w| - 1][1..];
    }
  }

  /** Below 256 `?` the number means what it is meant to mean. */
  lemma {:induction false} SkipMeaning(w: seq<int>)
    requires AllWild(w) && Questions(w) < 0x100
    ensures SkipOf(w) == Questions(w) + if STAR in w then 0x100 else 0
  {
    if w != [] {
      hide Questions, SetBit8;
      var v := w[..|w| - 1];
      QuestionsLast(w);
      SkipMeaning(v);
      assert w == v + [w[|w| - 1]];
      Bit8(Questions(v), STAR in v);
    } else {
      assert Questions(w) == 0;
    }
  }

  lemma Bit8(q: nat, star: bool)
    requires q < 0x100
    ensures SetBit8(q + if star then 0x100 else 0) == q + 0x100
  {
  }

  /** Equal counts of wildcards in front of patterns of equal meaning. */
  lemma WildStep(fold: int -> int, w: seq<int>, w': seq<int>, p: seq<int>, p': seq<int>, n: seq<int>)
    requires AllWild(w) && AllWild(w') && Questions(w) == Questions(w') && (STAR in w <==> STAR in w')
    requires forall m :: 0 <= m <= |n| ==> (Glob(fold, p', n[m..]) <==> Glob(fold, p, n[m..]))
    ensures Glob(fold, w' + p', n) <==> Glob(fold, w + p, n)
  {
    hide Glob, Questions;
    GlobWild(fold, w, p, n);
    GlobWild(fold, w', p', n);
  }

  lemma {:induction false} PrefixParts(skip: nat)
    ensures AllWild(Prefix(skip)) && Questions(Prefix(skip)) == skip % 0x100
              && (STAR in Prefix(skip) <==> skip >= 0x100)
  {
    var q := seq(skip % 0x100, _ => QUESTION);
    Repeated(skip % 0x100, if skip >= 0x100 then [STAR] else []);
  }

  lemma {:induction false} Repeated(n: nat, s: seq<int>)
    requires s == [] || s == [STAR]
    ensures Questions(seq(n, _ => QUESTION) + s) == n
  {
    var w := seq(n, _ => QUESTION) + s;
    if n == 0 {
      assert w == s;
    } else {
      assert w[1..] == seq(n - 1, _ => QUESTION) + s;
      Repeated(n - 1, s);
    }
  }

  /** No run of wildcards of the pattern has 256 `?` or more. */
  ghost predicate Countable(p: seq<int>) {
    if p == [] then true
    else if Wild(p[0]) then Questions(p[..WildLength(p)]) < 0x100 && Countable(p[WildLength(p)..])
    else Countable(p[1..])
  }

  /** Such a pattern is understood as it is meant. */
  lemma {:induction false} UnderstoodRight(fold: int -> int, p: seq<int>, n: seq<int>)
    requires Countable(p)
    ensures Glob(fold, Understood(p), n) <==> Glob(fold, p, n)
    decreases |p|, |n|
  {
    if p != [] {
      if Wild(p[0]) {
        hide Glob, Questions, SkipOf, Prefix, AllWild, Runs;
        var k := WildLength(p);
        var w, rest := p[..k], p[k..];
        assert p == w + rest;
        forall m | 0 <= m <= |n|
          ensures Glob(fold, Understood(rest), n[m..]) <==> Glob(fold, rest, n[m..])
        {
          UnderstoodRight(fold, rest, n[m..]);
        }
        SkipMeaning(w);
        PrefixParts(SkipOf(w));
        WildStep(fold, w, Prefix(SkipOf(w)), rest, Understood(rest), n);
      } else {
        assert Understood(p)[1..] == Understood(p[1..]);
        if n != [] {
          UnderstoodRight(fold, p[1..], n[1..]);
        }
      }
    }
  }

  // ------------------------------------------------------------------------------------------
  // The matcher

  /** A pattern that begins with `k` literals needs `k` characters. */
  lemma {:induction false} LiteralsNeed(fold: int -> int, p: seq<int>, k: nat, n: seq<int>)
    requires k <= |p| && (forall i :: 0 <= i < k ==> !Wild(p[i])) && Glob(fold, Understood(p), n)
    ensures k <= |n|
  {
    if k > 0 {
      assert Understood(p)[1..] == Understood(p[1..]);
      LiteralsNeed(fold, p[1..], k - 1, n[1..]);
    }
  }

  /** Literals that are equal can be dropped from both sides. */
  lemma LiteralStep(fold: int -> int, p: seq<int>, n: seq<int>)
    requires p != [] && !Wild(p[0])
    ensures Glob(fold, Understood(p), n) <==>
              n != [] && fold(p[0]) == fold(n[0]) && Glob(fold, Understood(p[1..]), n[1..])
    ensures Runs(p) == Runs(p[1..])
  {
    assert Understood(p)[1..] == Understood(p[1..]);
  }

  lemma EndOfPattern(fold: int -> int, p: seq<int>, n: seq<int>)
    requires p == []
    ensures Runs(p) == 0 && (Glob(fold, Understood(p), n) <==> n == [])
  {
  }

  /** What comparing one character, or the end, of both tells. */
  lemma CompareHere(fold: int -> int, pat: Text, nam: Text, p: nat, pchr: int, nchr: int)
    requires FoldOk(fold) && p <= |pat| && p <= |nam| && (p < |pat| ==> !Wild(pat[p]))
    requires pchr == (if p < |pat| then fold(pat[p]) else 0) && nchr == (if p < |nam| then fold(nam[p]) else 0)
    ensures nchr == 0 <==> p == |nam|
    ensures pchr != nchr ==> !Glob(fold, Understood(pat[p..]), nam[p..])
    ensures pchr == nchr == 0 ==> Glob(fold, Understood(pat[p..]), nam[p..]) && Runs(pat[p..]) == 0
    ensures pchr == nchr != 0 ==>
              && p < |pat| && p < |nam| && Runs(pat[p + 1..]) == Runs(pat[p..])
              && (Glob(fold, Understood(pat[p..]), nam[p..]) <==> Glob(fold, Understood(pat[p + 1..]), nam[p + 1..]))
  {
    hide Glob, Understood, Runs;
    assert p < |nam| ==> nam[p] != 0;
    if p < |pat| {
      assert pat[p] != 0;
      LiteralStep(fold, pat[p..], nam[p..]);
      assert pat[p..][1..] == pat[p + 1..];
      if p < |nam| {
        assert nam[p..][1..] == nam[p + 1..];
      }
    } else {
      EndOfPattern(fold, pat[p..], nam[p..]);
    }
  }

  /** What one attempt to match at a fixed place of the name may find. */
  datatype Attempt = Matched | Mismatched(nchr: int) | TooMany

  /** The wildcard term at the start of `p`. */
  method WildTerm(p: seq<int>) returns (k: nat, sk: nat)
    requires p != [] && Wild(p[0])
    ensures k == WildLength(p) && sk == SkipOf(p[..k])
  {
    k, sk := 0, 0;
    while true
      invariant 0 <= k < |p| && AllWild(p[..k]) && Wild(p[k]) && sk == SkipOf(p[..k])
      decreases |p| - k
    {
      assert p[..k + 1][..k] == p[..k];
      if p[k] == QUESTION {
        sk := sk + 1;
      } else {
        sk := SetBit8(sk);
      }
      k := k + 1;
      if k == |p| || !Wild(p[k]) { break; }
    }
    WildLengthIs(p, k);
  }

  lemma {:induction false} WildLengthIs(p: seq<int>, k: nat)
    requires k <= |p| && AllWild(p[..k]) && (k < |p| ==> !Wild(p[k]))
    ensures WildLength(p) == k
  {
    if k > 0 {
      assert Wild(p[..k][0]);
      assert p[1..][..k - 1] == p[..k][1..];
      WildLengthIs(p[1..], k - 1);
    }
  }

  /** The inner loop: the pattern against the name, both from their start. */
  method MatchHere(fold: int -> int, pat: Text, nam: Text, recur: nat) returns (r: Attempt)
    requires FoldOk(fold)
    ensures r == Matched <==> Runs(pat) <= recur && Glob(fold, Understood(pat), nam)
    ensures r == TooMany ==> Runs(pat) > recur
    ensures r.Mismatched? && r.nchr == 0 ==> forall k :: 0 < k <= |nam| ==> !Glob(fold, Understood(pat), nam[k..])
    ensures r.Mismatched? && r.nchr != 0 ==> nam != []
    decreases recur, 0
  {
    hide *;
    var p := 0;
    assert pat[0..] == pat && nam[0..] == nam;
    while true
      invariant 0 <= p <= |pat| && p <= |nam| && forall i :: 0 <= i < p ==> !Wild(pat[i])
      invariant Glob(fold, Understood(pat), nam) <==> Glob(fold, Understood(pat[p..]), nam[p..])
      invariant Runs(pat) == Runs(pat[p..])
      decreases |pat| - p
    {
      NeedAll(fold, pat, nam, p);
      if p < |pat| && Wild(pat[p]) {
        WildRuns(pat[p..]);
        if recur == 0 { return TooMany; }
        var k, sk := WildTerm(pat[p..]);
        assert pat[p..][k..] == pat[p + k..];
        var m := PatternMatch(fold, pat[p + k..], nam[p..], sk, recur - 1);
        if m { return Matched; }
        return Mismatched(if p < |nam| then nam[p] else 0);
      }
      var pchr := if p < |pat| then fold(pat[p]) else 0;
      var nchr := if p < |nam| then fold(nam[p]) else 0;
      CompareHere(fold, pat, nam, p, pchr, nchr);
      if pchr != nchr { return Mismatched(nchr); }
      if pchr == 0 { return Matched; }
      p := p + 1;
    }
  }

  lemma WildRuns(p: seq<int>)
    requires p != [] && Wild(p[0])
    ensures Runs(p) == 1 + Runs(p[WildLength(p)..])
    ensures Understood(p) == Prefix(SkipOf(p[..WildLength(p)])) + Understood(p[WildLength(p)..])
  {
  }

  lemma NeedAll(fold: int -> int, pat: seq<int>, nam: seq<int>, p: nat)
    requires p <= |pat| && p <= |nam| && forall i :: 0 <= i < p ==> !Wild(pat[i])
    ensures p == |nam| ==> forall k :: 0 < k <= |nam| ==> !Glob(fold, Understood(pat), nam[k..])
  {
    if p == |nam| {
      forall k | 0 < k <= |nam|
        ensures !Glob(fold, Understood(pat), nam[k..])
      {
        if Glob(fold, Understood(pat), nam[k..]) {
          LiteralsNeed(fold, pat, p, nam[k..]);
        }
      }
    }
  }

  /** pattern_match, for a pattern whose wildcards in front have been read into `skip0`. */
  method PatternMatch(fold: int -> int, pat: Text, nam: Text, skip0: nat, recur: nat) returns (m: bool)
    requires FoldOk(fold) && (skip0 != 0 && pat != [] ==> !Wild(pat[0]))
    ensures m <==> Runs(pat) <= recur && Glob(fold, Prefix(skip0) + Understood(pat), nam)
    decreases recur, 1
  {
    hide Glob, Understood, Runs, Prefix;
    PrefixParts(skip0);
    GlobWild(fold, Prefix(skip0), Understood(pat), nam);
    var skip, s := skip0, 0;
    while skip % 0x100 != 0
      invariant 0 <= s <= |nam| && s + skip % 0x100 == skip0 % 0x100 && skip / 0x100 == skip0 / 0x100
      decreases skip
    {
      if s == |nam| { return false; }
      s := s + 1;
      skip := skip - 1;
    }
    if pat == [] && skip != 0 {
      EndOfPattern(fold, pat, nam[|nam|..]);
      return true;
    }
    ghost var q := s;
    while true
      invariant q <= s <= |nam| && (s > q ==> skip != 0)
      invariant forall k :: q <= k < s ==> !(Runs(pat) <= recur && Glob(fold, Understood(pat), nam[k..]))
      decreases |nam| - s
    {
      var r := MatchHere(fold, pat, nam[s..], recur);
      if r == Matched { return true; }
      if r == TooMany { return false; }
      if skip == 0 { return false; }
      if r.nchr == 0 {
        forall k | s < k <= |nam|
          ensures !Glob(fold, Understood(pat), nam[k..])
        {
          assert nam[s..][k - s..] == nam[k..];
        }
        return false;
      }
      s := s + 1;
    }
  }

  /** What the matcher as f_findnext calls it decides. */
  ghost predicate Found(fold: int -> int, p: seq<int>, n: seq<int>) {
    Runs(p) <= 4 && Glob(fold, Understood(p), n)
  }

  /** The matcher as f_findnext calls it. */
  method Matches(fold: int -> int, pat: Text, nam: Text) returns (m: bool)
    requires FoldOk(fold)
    ensures m <==> Found(fold, pat, nam)
    ensures Countable(pat) && Runs(pat) <= 4 ==> (m <==> Glob(fold, pat, nam))
  {
    if Countable(pat) {
      UnderstoodRight(fold, pat, nam);
    }
    m := PatternMatch(fold, pat, nam, 0, FIND_RECURS);
    assert Prefix(0) + Understood(pat) == Understood(pat);
  }

  // ------------------------------------------------------------------------------------------
  // For which patterns it is right

  /** Number of characters that a pattern needs. */
  function Need(p: seq<int>): nat {
    if p == [] then 0 else (if p[0] == STAR then 0 else 1) + Need(p[1..])
  }

  /** A shortest name that matches: the pattern without its `*`. */
  function Shortest(p: seq<int>): (n: seq<int>)
    ensures |n| == Need(p) && forall i :: 0 <= i < |n| ==> n[i] in p
  {
    if p == [] then [] else (if p[0] == STAR then [] else [p[0]]) + Shortest(p[1..])
  }

  lemma {:induction false} ShortestMatches(fold: int -> int, p: seq<int>)
    ensures Glob(fold, p, Shortest(p))
  {
    if p != [] {
      ShortestMatches(fold, p[1..]);
      if p[0] == STAR {
        assert Shortest(p) == Shortest(p[1..]);
      } else {
        assert Shortest(p)[1..] == Shortest(p[1..]);
      }
    }
  }

  lemma {:induction false} NeedMet(fold: int -> int, p: seq<int>, n: seq<int>)
    requires Glob(fold, p, n)
    ensures Need(p) <= |n|
    decreases |p| + |n|
  {
    if p != [] {
      if p[0] == STAR && !Glob(fold, p[1..], n) {
        NeedMet(fold, p, n[1..]);
      } else {
        NeedMet(fold, p[1..], if p[0] == STAR then n else n[1..]);
      }
    }
  }

  lemma {:induction false} NeedSum(p: seq<int>, q: seq<int>)
    ensures Need(p + q) == Need(p) + Need(q)
  {
    if p == [] {
      assert p + q == q;
    } else {
      assert (p + q)[1..] == p[1..] + q;
      NeedSum(p[1..], q);
    }
  }

  lemma {:induction false} NeedWild(w: seq<int>)
    requires AllWild(w)
    ensures Need(w) == Questions(w)
  {
    if w != [] {
      NeedWild(w[1..]);
    }
  }

  /** The low 8 bits count the `?` modulo 256. */
  lemma {:induction false} SkipLow(w: seq<int>)
    requires AllWild(w)
    ensures SkipOf(w) % 0x100 == Questions(w) % 0x100
  {
    if w != [] {
      hide Questions, SetBit8;
      QuestionsLast(w);
      SkipLow(w[..|w| - 1]);
      Low8(SkipOf(w[..|w| - 1]), Questions(w[..|w| - 1]));
    }
  }

  lemma Low8(s: nat, q: nat)
    requires s % 0x100 == q % 0x100
    ensures SetBit8(s) % 0x100 == q % 0x100 && (s + 1) % 0x100 == (q + 1) % 0x100
  {
  }

  /** A run of wildcards, as it is understood, needs no more characters, and fewer from 256 `?` on. */
  lemma NeedRun(w: seq<int>, p: seq<int>, p': seq<int>)
    requires AllWild(w)
    ensures
      var d := Need(w + p) - Need(p) - (Need(Prefix(SkipOf(w)) + p') - Need(p'));
      d >= 0 && (d == 0 <==> Questions(w) < 0x100)
  {
    hide Need, Questions, SkipOf, Prefix, AllWild;
    SkipLow(w);
    PrefixParts(SkipOf(w));
    NeedWild(w);
    NeedWild(Prefix(SkipOf(w)));
    NeedSum(w, p);
    NeedSum(Prefix(SkipOf(w)), p');
  }

  /** The pattern as understood never needs more characters, and fewer if it is not countable. */
  lemma {:induction false} NeedUnderstood(p: seq<int>)
    ensures Need(Understood(p)) <= Need(p) && (Countable(p) || Need(Understood(p)) < Need(p))
  {
    if p != [] {
      if Wild(p[0]) {
        hide Need, Questions, SkipOf, Prefix, AllWild;
        var w, rest := p[..WildLength(p)], p[WildLength(p)..];
        assert p == w + rest;
        NeedUnderstood(rest);
        NeedRun(w, rest, Understood(rest));
      } else {
        NeedUnderstood(p[1..]);
        assert Understood(p)[1..] == Understood(p[1..]);
      }
    }
  }

  lemma {:induction false} UnderstoodText(p: Text)
    ensures forall i :: 0 <= i < |Understood(p)| ==> Understood(p)[i] != 0
  {
    if p != [] {
      if Wild(p[0]) {
        UnderstoodText(p[WildLength(p)..]);
      } else {
        UnderstoodText(p[1..]);
      }
    }
  }

  /** The two patterns match the same names. */
  ghost predicate Alike(fold: int -> int, p: seq<int>, q: seq<int>) {
    forall n: Text :: Glob(fold, p, n) <==> Glob(fold, q, n)
  }

  lemma NotAlike(fold: int -> int, p: seq<int>, q: seq<int>, n: Text)
    requires Glob(fold, p, n) && !Glob(fold, q, n)
    ensures !Alike(fold, p, q)
  {
  }

  /** Some name tells a pattern that is not countable from what is understood. */
  lemma Misunderstood(fold: int -> int, p: Text) returns (n: Text)
    requires !Countable(p)
    ensures Glob(fold, Understood(p), n) && !Glob(fold, p, n)
  {
    hide Understood, Need, Countable, Glob;
    UnderstoodText(p);
    n := Shortest(Understood(p));
    ShortestMatches(fold, Understood(p));
    NeedUnderstood(p);
    if Glob(fold, p, n) { NeedMet(fold, p, n); }
  }

  /** A pattern is understood as it is meant exactly if it is countable. */
  lemma UnderstoodExactly(fold: int -> int, p: Text)
    ensures Countable(p) <==> Alike(fold, Understood(p), p)
  {
    hide Understood, Need, Countable;
    if Countable(p) {
      forall n: Text
        ensures Glob(fold, Understood(p), n) <==> Glob(fold, p, n)
      {
        UnderstoodRight(fold, p, n);
      }
    } else {
      var n := Misunderstood(fold, p);
      NotAlike(fold, Understood(p), p, n);
    }
  }

  /** What the matcher finds is what the pattern means. */
  ghost predicate FindsRight(fold: int -> int, p: seq<int>) {
    forall n: Text :: Found(fold, p, n) <==> Glob(fold, p, n)
  }

  lemma FindsWrong(fold: int -> int, p: seq<int>, n: Text)
    requires !(Found(fold, p, n) <==> Glob(fold, p, n))
    ensures !FindsRight(fold, p)
  {
  }

  /** The matcher agrees with the meaning of the pattern on all names exactly if the pattern is countable
      and has at most 4 runs of wildcards. */
  lemma FoundExactly(fold: int -> int, p: Text)
    ensures Countable(p) && Runs(p) <= 4 <==> FindsRight(fold, p)
  {
    hide Understood, Runs, Countable;
    if Runs(p) > 4 {
      var n: Text := Shortest(p);
      ShortestMatches(fold, p);
      FindsWrong(fold, p, n);
    } else if !Countable(p) {
      var n := Misunderstood(fold, p);
      FindsWrong(fold, p, n);
    } else {
      forall n: Text
        ensures Found(fold, p, n) <==> Glob(fold, p, n)
      {
        UnderstoodRight(fold, p, n);
      }
    }
  }

  /** The relation in numbers: after 0x2A (`*`) the rest matches some end of the name, after 0x3F (`?`) the name
      without its first character, and any other character stands for itself. */
  lemma GlobInNumbers(fold: int -> int, c: int, p: seq<int>, n: seq<int>)
    ensures Glob(fold, [], n) <==> n == []
    ensures Glob(fold, [0x2A] + p, n) <==> exists k :: 0 <= k <= |n| && Glob(fold, p, n[k..])
    ensures Glob(fold, [0x3F] + p, n) <==> n != [] && Glob(fold, p, n[1..])
    ensures c != 0x2A && c != 0x3F ==>
              (Glob(fold, [c] + p, n) <==> n != [] && fold(c) == fold(n[0]) && Glob(fold, p, n[1..]))
  {
    GlobWild(fold, [0x2A], p, n);
    assert [0x2A][1..] == [];
    assert ([0x3F] + p)[1..] == p && ([c] + p)[1..] == p;
  }

  /** Why the count of `?` matters: 256 of them are taken for a `*`. */
  lemma ManyQuestions(fold: int -> int)
    ensures
      var p := seq(0x100, _ => QUESTION);
      !Countable(p) && Glob(fold, Understood(p), []) && !Glob(fold, p, [])
  {
    var p := seq(0x100, _ => QUESTION);
    WildLengthIs(p, 0x100);
    assert p[..0x100] == p && p[0x100..] == [];
    Repeated(0x100, []);
    assert p + [] == p;
    ManySkip(p);
    assert Understood(p) == Prefix(0x100) == [STAR];
    assert [STAR][1..] == [];
  }

  lemma {:induction false} ManySkip(w: seq<int>)
    requires forall i :: 0 <= i < |w| ==> w[i] == QUESTION
    ensures SkipOf(w) == |w|
  {
    if w != [] {
      ManySkip(w[..|w| - 1]);
    }
  }
}

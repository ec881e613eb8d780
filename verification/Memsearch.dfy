/** memsearch: the search of a byte pattern with a bad-character table (Boyer, Moore and Horspool). */
module Memsearch {
  import opened Words

  ghost predicate OccursAt(text: seq<byte>, pattern: seq<byte>, k: nat) {
    k + |pattern| <= |text| && text[k..k + |pattern|] == pattern
  }

  /** `table[c]` is a distance over which the pattern can be moved when `c` is under its last byte: in
      between no byte of the pattern before the last one meets a `c`. */
  ghost predicate ShiftOk(table: seq<u32>, pattern: seq<byte>, n: nat)
    requires n < |pattern|
  {
    && |table| == 256
    && forall c :: 0 <= c < 256 ==>
         && 1 <= table[c] <= |pattern|
         && (table[c] < |pattern| ==> |pattern| - 1 - table[c] < n && pattern[|pattern| - 1 - table[c]] == c)
         && forall i :: |pattern| - 1 - table[c] < i < n ==> pattern[i] != c
  }

  /** No occurrence is skipped. */
  lemma NoneSkipped(text: seq<byte>, pattern: seq<byte>, table: seq<u32>, j: nat, k: nat)
    requires pattern != [] && ShiftOk(table, pattern, |pattern| - 1) && j + |pattern| <= |text|
    requires j < k < j + table[text[j + |pattern| - 1]]
    ensures !OccursAt(text, pattern, k)
  {
    var m := |pattern|;
    var c := text[j + m - 1];
    if k + m <= |text| {
      var i := m - 1 - (k - j);
      assert i >= 0 ==> pattern[i] != c;
      assert i >= 0 ==> text[k..k + m][i] == text[k + i];
    }
  }

  /** memsearch: the first occurrence, or none if there is none. */
  method Memsearch(startPos: array<byte>, pattern: seq<byte>) returns (r: Option<nat>)
    requires 1 <= |pattern| <= startPos.Length < TWO32
    ensures match r
      case Some(k) => OccursAt(startPos[..], pattern, k) && forall i: nat :: i < k ==>
          !OccursAt(startPos[..], pattern, i)
      case None => forall i: nat :: !OccursAt(startPos[..], pattern, i)
  {
    var size, patternSize := startPos.Length, |pattern|;
    ghost var text := startPos[..];
    var table := BuildTable(pattern);
    var j := 0;
    while j <= size - patternSize
      invariant 0 <= j
      invariant ShiftOk(table[..], pattern, patternSize - 1)
      invariant forall i: nat :: i < j ==> !OccursAt(text, pattern, i)
    {
      var c := startPos[j + patternSize - 1];
      if pattern[patternSize - 1] == c && pattern[..patternSize - 1] == startPos[j..j + patternSize - 1] {
        assert text[j..j + patternSize] == text[j..j + patternSize - 1] + [c];
        assert pattern == pattern[..patternSize - 1] + [c];
        return Some(j);
      }
      NotHere(text, pattern, j);
      forall i: nat | j < i < j + table[c]
        ensures !OccursAt(text, pattern, i)
      {
        NoneSkipped(text, pattern, table[..], j, i);
      }
      j := j + table[c];
    }
    r := None;
  }

  lemma NotHere(text: seq<byte>, pattern: seq<byte>, j: nat)
    requires pattern != [] && j + |pattern| <= |text|
    requires pattern[|pattern| - 1] != text[j + |pattern| - 1] || pattern[..|pattern| - 1] != text[j..j + |pattern| - 1]
    ensures !OccursAt(text, pattern, j)
  {
    assert text[j..j + |pattern|][..|pattern| - 1] == text[j..j + |pattern| - 1];
    assert text[j..j + |pattern|][|pattern| - 1] == text[j + |pattern| - 1];
  }

  method BuildTable(pattern: seq<byte>) returns (table: array<u32>)
    requires 1 <= |pattern| < TWO32
    ensures fresh(table) && ShiftOk(table[..], pattern, |pattern| - 1)
  {
    table := new u32[256];
    for i := 0 to 256
      invariant forall k :: 0 <= k < i ==> table[k] == |pattern|
    {
      table[i] := |pattern|;
    }
    for i := 0 to |pattern| - 1
      invariant ShiftOk(table[..], pattern, i)
    {
      table[pattern[i]] := |pattern| - i - 1;
    }
  }
}

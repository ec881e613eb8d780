/** lzss_decompress: the decoder that works backwards in one buffer, its input at the low end and its
    output at the high end of the same memory. */
module Lzss {
  import opened Words
  import opened FatLayout
  import Arith

  // ------------------------------------------------------------------------------------------
  // The reference: out of place, both sequences in the order in which the decoder goes over them

  /** Length of a match and distance of its source, from its two bytes. */
  function MatchLength(hi: byte): (n: nat)
    ensures 3 <= n <= 18
  {
    hi / 16 + 3
  }

  function MatchOffset(hi: byte, lo: byte): (d: nat)
    ensures 2 <= d < 0x1002
  {
    lo + hi % 16 * 0x100 + 2
  }

  /** `n` more bytes, each a copy of the one `d` + 1 places back; it may be one just copied. */
  function CopyBack(out: seq<byte>, d: nat, n: nat): (r: seq<byte>)
    requires d < |out|
    ensures |r| == |out| + n && r[..|out|] == out
    ensures forall i :: |out| <= i < |r| ==> r[i] == r[i - 1 - d]
    decreases n
  {
    if n == 0 then out
    else
      var r := CopyBack(out, d, n - 1);
      r + [r[|r| - 1 - d]]
  }

  /** The output for the input `input`, after `out` has been produced; `k` tokens are left under the flag
      bits `flags`. None for an input that ends inside a token or copies from before its start. */
  function Decode(input: seq<byte>, flags: byte, k: nat, out: seq<byte>): (r: Option<seq<byte>>)
    ensures r.Some? ==> |out| <= |r.value| && r.value[..|out|] == out
  {
    if input == [] then Some(out)
    else if k == 0 then
      if |input| == 1 then None else Decode(input[1..], input[0], 8, out)
    else if flags >= 0x80 then
      if |input| == 1 || MatchOffset(input[0], input[1]) >= |out| then None
      else Decode(input[2..], flags * 2 % 0x100, k - 1, CopyBack(out, MatchOffset(input[0], input[1]), MatchLength(input[0])))
    else Decode(input[1..], flags * 2 % 0x100, k - 1, out + [input[0]])
  }

  /** The write position never falls below the unread input, if it is `gap` above it now. */
  predicate Safe(input: seq<byte>, flags: byte, k: nat, gap: int) {
    if input == [] then true
    else if k == 0 then Safe(input[1..], input[0], 8, gap + 1)
    else if flags >= 0x80 then
      |input| > 1 ==>
        gap + 2 - MatchLength(input[0]) >= 0
            && Safe(input[2..], flags * 2 % 0x100, k - 1, gap + 2 - MatchLength(input[0]))
    else gap >= 0 && Safe(input[1..], flags * 2 % 0x100, k - 1, gap)
  }

  function Reversed(s: seq<byte>): (r: seq<byte>)
    ensures |r| == |s| && forall i :: 0 <= i < |s| ==> r[i] == s[|s| - 1 - i]
  {
    seq(|s|, i requires 0 <= i < |s| => s[|s| - 1 - i])
  }

  // ------------------------------------------------------------------------------------------
  // In place

  /** The buffer from below the write position `v2` on: the output so far, and below the read position
      `v3` still the input. */
  ghost predicate InPlace(buf: seq<byte>, orig: seq<byte>, v2: int, v3: int, top: int, out: seq<byte>) {
    && |buf| == |orig| && 0 <= v3 <= v2 <= top <= |buf| && |out| == top - v2
    && buf[v2..top] == Reversed(out)
    && buf[top..] == orig[top..] && buf[..v2] == orig[..v2]
  }

  lemma InputStill(buf: seq<byte>, orig: seq<byte>, v2: int, v3: int, top: int, out: seq<byte>, i: int)
    requires InPlace(buf, orig, v2, v3, top, out) && 0 <= i < v2
    ensures buf[i] == orig[i]
  {
    assert buf[..v2][i] == orig[..v2][i];
  }

  /** One byte of output. */
  lemma OneMore(buf: seq<byte>, orig: seq<byte>, v2: int, v3: int, top: int, out: seq<byte>, b: byte)
    requires InPlace(buf, orig, v2, v3, top, out) && v3 < v2
    ensures InPlace(buf[v2 - 1 := b], orig, v2 - 1, v3, top, out + [b])
  {
    var buf' := buf[v2 - 1 := b];
    assert buf'[v2 - 1..top] == [b] + buf[v2..top];
    assert Reversed(out + [b]) == [b] + Reversed(out);
    assert buf'[top..] == buf[top..];
    assert buf'[..v2 - 1] == buf[..v2][..v2 - 1] && orig[..v2 - 1] == orig[..v2][..v2 - 1];
  }

  /** Byte `d` + 1 places back in the output. */
  lemma BackThere(buf: seq<byte>, orig: seq<byte>, v2: int, v3: int, top: int, out: seq<byte>, d: nat)
    requires InPlace(buf, orig, v2, v3, top, out) && d < |out|
    ensures buf[v2 + d] == out[|out| - 1 - d]
  {
    assert buf[v2..top][d] == Reversed(out)[d];
  }

  /** The do loop that copies a match. */
  method CopyMatch(buf: array<byte>, v2: nat, v15: nat, hi: byte, ghost orig: seq<byte>, ghost v3: nat, ghost top: nat,
                   ghost out: seq<byte>)
    returns (w: nat, ret: byte)
    requires InPlace(buf[..], orig, v2, v3, top, out) && v15 < |out| && v3 + MatchLength(hi) <= v2
    modifies buf
    ensures w == v2 - MatchLength(hi)
    ensures InPlace(buf[..], orig, w, v3, top, CopyBack(out, v15, MatchLength(hi)))
    ensures ret == buf[w]
  {
    hide InPlace, CopyBack, MatchLength;
    w := v2;
    CopyNone(out, v15, hi);
    var v16 := hi + 32;
    ghost var n := 0;
    while true
      invariant 0 <= n < MatchLength(hi) && v16 == hi + 32 - 16 * n && w == v2 - n
      invariant InPlace(buf[..], orig, w, v3, top, CopyBack(out, v15, n))
      decreases MatchLength(hi) - n
    {
      ghost var o := CopyBack(out, v15, n);
      Bounds(buf[..], orig, w, v3, top, o);
      BackThere(buf[..], orig, w, v3, top, o, v15);
      ret := buf[w + v15];
      OneMore(buf[..], orig, w, v3, top, o, ret);
      CopyNext(out, v15, n);
      CopyCount(hi, n + 1);
      buf[w - 1] := ret;
      w := w - 1;
      n := n + 1;
      v16 := v16 - 16;
      if v16 < 0 { break; }
    }
  }

  lemma CopyNone(out: seq<byte>, d: nat, hi: byte)
    requires d < |out|
    ensures CopyBack(out, d, 0) == out
  {
  }

  lemma CopyNext(out: seq<byte>, d: nat, n: nat)
    requires d < |out|
    ensures CopyBack(out, d, n + 1) == CopyBack(out, d, n) + [CopyBack(out, d, n)[|out| + n - 1 - d]]
  {
  }

  /** When the loop counter falls below 0. */
  lemma CopyCount(hi: byte, n: nat)
    ensures hi + 32 - 16 * n < 0 <==> n >= MatchLength(hi)
  {
  }

  lemma Bounds(buf: seq<byte>, orig: seq<byte>, v2: int, v3: int, top: int, out: seq<byte>)
    requires InPlace(buf, orig, v2, v3, top, out)
    ensures 0 <= v3 <= v2 <= top <= |buf| == |orig| && |out| == top - v2
  {
  }

  /** The unread input. */
  ghost function Input(orig: seq<byte>, v4: int, v3: int): (s: seq<byte>)
    requires 0 <= v4 && v3 <= |orig|
    ensures |s| == if v3 > v4 then v3 - v4 else 0
  {
    if v3 > v4 then Reversed(orig[v4..v3]) else []
  }

  lemma NextInput(orig: seq<byte>, v4: int, v3: int)
    requires 0 <= v4 < v3 <= |orig|
    ensures Input(orig, v4, v3)[0] == orig[v3 - 1] && Input(orig, v4, v3)[1..] == Input(orig, v4, v3 - 1)
  {
  }

  lemma NextTwo(orig: seq<byte>, v4: int, v3: int)
    requires 0 <= v4 && v3 <= |orig| && |Input(orig, v4, v3)| > 1
    ensures v4 + 2 <= v3 && Input(orig, v4, v3)[0] == orig[v3 - 1] && Input(orig, v4, v3)[1] == orig[v3 - 2]
    ensures Input(orig, v4, v3)[2..] == Input(orig, v4, v3 - 2)
  {
    hide Input;
    var input := Input(orig, v4, v3);
    NextInput(orig, v4, v3);
    NextInput(orig, v4, v3 - 1);
    assert input[1] == input[1..][0];
    assert input[2..] == input[1..][1..];
  }

  /** The 32-bit words in front of the end of the input: where the input begins and ends, and how much
      longer the output is. */
  function Top(buf: seq<byte>, end: nat): nat
    requires 8 <= end <= |buf|
  {
    end + Dword(buf, end - 4)
  }

  function ReadFrom(buf: seq<byte>, end: nat): int
    requires 8 <= end <= |buf|
  {
    end - Dword(buf, end - 8) / 0x100_0000
  }

  function ReadTo(buf: seq<byte>, end: nat): int
    requires 8 <= end <= |buf|
  {
    end - Dword(buf, end - 8) % 0x100_0000
  }

  /** In the bytes of the buffer: the last four say how much longer the output is; of the four before them the highest
      one is how far before the end the input ends, and the others how far it begins (it is read backwards). */
  lemma HeaderInBytes(buf: seq<byte>, end: nat)
    requires 8 <= end <= |buf|
    ensures
      var b: seq<int> := buf;
      && Top(buf, end) == end + b[end - 4] + 0x100 * b[end - 3] + 0x1_0000 * b[end - 2] + 0x100_0000 * b[end - 1]
      && ReadFrom(buf, end) == end - b[end - 5]
      && ReadTo(buf, end) == end - (b[end - 8] + 0x100 * b[end - 7] + 0x1_0000 * b[end - 6])
  {
    var b: seq<int> := buf;
    var low := b[end - 8] + 0x100 * b[end - 7] + 0x1_0000 * b[end - 6];
    Arith.DivModUnique(Dword(buf, end - 8), 0x100_0000, b[end - 5], low);
  }

  /** The buffer holds an input that is well formed and can be decoded in place. */
  ghost predicate Decodable(buf: seq<byte>, end: nat) {
    && 8 <= end <= |buf|
    && 0 <= ReadTo(buf, end) && 0 <= ReadFrom(buf, end) && Top(buf, end) <= |buf|
    && var input := Input(buf, ReadTo(buf, end), ReadFrom(buf, end));
       Decode(input, 0, 0, []).Some? && Safe(input, 0, 0, Top(buf, end) - ReadFrom(buf, end))
  }

  /** What the pure decoder makes of it. */
  ghost function Output(buf: seq<byte>, end: nat): seq<byte>
    requires Decodable(buf, end)
  {
    Decode(Input(buf, ReadTo(buf, end), ReadFrom(buf, end)), 0, 0, []).value
  }

  /** The decoder is in the middle of its work: what is left of the input leads to the output `want`. */
  ghost predicate Midway(buf: seq<byte>, orig: seq<byte>, top: nat, want: seq<byte>,
                         v2: int, v3: int, v4: int, flags: byte, k: nat, out: seq<byte>) {
    && 0 <= v4 && 0 <= v3 <= |orig|
    && InPlace(buf, orig, v2, v3, top, out)
    && Decode(Input(orig, v4, v3), flags, k, out) == Some(want)
    && Safe(Input(orig, v4, v3), flags, k, v2 - v3)
  }

  lemma Begin(buf: seq<byte>, end: nat)
    requires Decodable(buf, end)
    ensures Midway(buf, buf, Top(buf, end), Output(buf, end), Top(buf, end), ReadFrom(buf, end), ReadTo(buf, end), 0, 0, [])
    ensures ReadFrom(buf, end) <= Top(buf, end) <= |buf| && 0 <= ReadTo(buf, end) && 0 <= ReadFrom(buf, end)
              && 8 <= end <= |buf|
  {
  }

  // One step of the reference decoder

  lemma StepFlags(input: seq<byte>, flags: byte, out: seq<byte>, want: seq<byte>, gap: int)
    requires input != [] && Decode(input, flags, 0, out) == Some(want) && Safe(input, flags, 0, gap)
    ensures |input| > 1 && Decode(input[1..], input[0], 8, out) == Some(want) && Safe(input[1..], input[0], 8, gap + 1)
  {
  }

  lemma StepMatch(input: seq<byte>, flags: byte, k: nat, out: seq<byte>, want: seq<byte>, gap: int)
    requires input != [] && k > 0 && flags >= 0x80
    requires Decode(input, flags, k, out) == Some(want) && Safe(input, flags, k, gap)
    ensures |input| > 1 && MatchOffset(input[0], input[1]) < |out| && gap + 2 - MatchLength(input[0]) >= 0
    ensures Decode(input[2..], flags * 2 % 0x100, k - 1, CopyBack(out, MatchOffset(input[0], input[1]), MatchLength(input[0]))) == Some(want)
    ensures Safe(input[2..], flags * 2 % 0x100, k - 1, gap + 2 - MatchLength(input[0]))
  {
  }

  lemma StepLiteral(input: seq<byte>, flags: byte, k: nat, out: seq<byte>, want: seq<byte>, gap: int)
    requires input != [] && k > 0 && flags < 0x80
    requires Decode(input, flags, k, out) == Some(want) && Safe(input, flags, k, gap)
    ensures gap >= 0 && Decode(input[1..], flags * 2 % 0x100, k - 1, out + [input[0]]) == Some(want)
    ensures Safe(input[1..], flags * 2 % 0x100, k - 1, gap)
  {
  }

  /** A new byte of flags. */
  lemma ReadFlags(buf: seq<byte>, orig: seq<byte>, top: nat, want: seq<byte>, v2: int, v3: int, v4: int, flags: byte,
                  out: seq<byte>)
    requires Midway(buf, orig, top, want, v2, v3, v4, flags, 0, out) && v3 > v4
    ensures 1 <= v3 <= |buf| && v3 - 1 > v4
    ensures Midway(buf, orig, top, want, v2, v3 - 1, v4, buf[v3 - 1], 8, out)
  {
    hide InPlace, Decode, Safe, Input, Reversed;
    Bounds(buf, orig, v2, v3, top, out);
    NextInput(orig, v4, v3);
    StepFlags(Input(orig, v4, v3), flags, out, want, v2 - v3);
    InputStill(buf, orig, v2, v3, top, out, v3 - 1);
    Narrow(buf, orig, v2, v3, top, out, v3 - 1);
  }

  lemma Narrow(buf: seq<byte>, orig: seq<byte>, v2: int, v3: int, top: int, out: seq<byte>, v3': int)
    requires InPlace(buf, orig, v2, v3, top, out) && 0 <= v3' <= v3
    ensures InPlace(buf, orig, v2, v3', top, out)
  {
  }

  lemma AllDone(buf: seq<byte>, orig: seq<byte>, top: nat, want: seq<byte>, v2: int, v3: int, v4: int, flags: byte,
                k: nat, out: seq<byte>)
    requires Midway(buf, orig, top, want, v2, v3, v4, flags, k, out) && v3 <= v4
    ensures out == want && |out| <= top <= |orig|
    ensures buf == orig[..top - |out|] + Reversed(out) + orig[top..]
  {
    hide Reversed;
    assert Input(orig, v4, v3) == [];
    assert buf == buf[..v2] + buf[v2..top] + buf[top..];
  }

  /** One pass through the inner loop: a token. */
  method OneToken(buf: array<byte>, v2: nat, v3: nat, v4: nat, flags: byte, ghost k: nat,
                  ghost orig: seq<byte>, ghost top: nat, ghost want: seq<byte>, ghost out: seq<byte>)
    returns (ret: byte, w2: nat, w3: nat, ghost out': seq<byte>)
    requires Midway(buf[..], orig, top, want, v2, v3, v4, flags, k, out) && v3 > v4 && k > 0
    modifies buf
    ensures Midway(buf[..], orig, top, want, w2, w3, v4, flags * 2 % 0x100, k - 1, out') && w3 < v3
    ensures out' != [] && ret == out'[|out'| - 1]
  {
    hide InPlace, Decode, Safe, Input, Reversed, CopyBack, MatchOffset, MatchLength;
    ghost var input := Input(orig, v4, v3);
    NextInput(orig, v4, v3);
    Bounds(buf[..], orig, v2, v3, top, out);
    InputStill(buf[..], orig, v2, v3, top, out, v3 - 1);
    if flags >= 0x80 {
      StepMatch(input, flags, k, out, want, v2 - v3);
      var hi, lo;
      hi, lo, w3 := MatchBytes(buf, v2, v3, v4, orig, top, out);
      var v15 := MatchOffset(hi, lo);
      w2, ret := CopyMatch(buf, v2, v15, hi, orig, w3, top, out);
      out' := CopyBack(out, v15, MatchLength(hi));
    } else {
      StepLiteral(input, flags, k, out, want, v2 - v3);
      ret := buf[v3 - 1];
      w3 := v3 - 1;
      Narrow(buf[..], orig, v2, v3, top, out, w3);
      OneMore(buf[..], orig, v2, w3, top, out, ret);
      buf[v2 - 1] := ret;
      w2 := v2 - 1;
      out' := out + [ret];
    }
    Bounds(buf[..], orig, w2, w3, top, out');
    LastByte(buf[..], orig, w2, w3, top, out');
  }

  /** The two bytes of a match. */
  method MatchBytes(buf: array<byte>, v2: nat, v3: nat, v4: nat, ghost orig: seq<byte>, ghost top: nat,
                    ghost out: seq<byte>)
    returns (hi: byte, lo: byte, w3: nat)
    requires InPlace(buf[..], orig, v2, v3, top, out) && |Input(orig, v4, v3)| > 1 && v3 <= |orig|
    ensures w3 == v3 - 2 && hi == Input(orig, v4, v3)[0] && lo == Input(orig, v4, v3)[1]
    ensures Input(orig, v4, w3) == Input(orig, v4, v3)[2..]
    ensures InPlace(buf[..], orig, v2, w3, top, out)
  {
    hide Input, InPlace;
    Bounds(buf[..], orig, v2, v3, top, out);
    NextTwo(orig, v4, v3);
    InputStill(buf[..], orig, v2, v3, top, out, v3 - 1);
    InputStill(buf[..], orig, v2, v3, top, out, v3 - 2);
    hi := buf[v3 - 1];
    lo := buf[v3 - 2];
    w3 := v3 - 2;
    Narrow(buf[..], orig, v2, v3, top, out, w3);
  }

  lemma LastByte(buf: seq<byte>, orig: seq<byte>, v2: int, v3: int, top: int, out: seq<byte>)
    requires InPlace(buf, orig, v2, v3, top, out) && out != []
    ensures 0 <= v2 < |buf| && buf[v2] == out[|out| - 1]
  {
    BackThere(buf, orig, v2, v3, top, out, 0);
  }

  /** lzss_decompress, for a pointer to the end of the input (or a null pointer): the same bytes as the
      pure decoder produces, and nothing else in the buffer changes. */
  method LzssDecompress(buf: array<byte>, end: Option<nat>) returns (ret: byte)
    requires end.Some? ==> Decodable(buf[..], end.value)
    modifies buf
    ensures end.None? ==> ret == 0 && buf[..] == old(buf[..])
    ensures end.Some? ==>
              var out, top := Output(old(buf[..]), end.value), Top(old(buf[..]), end.value);
              && |out| <= top <= buf.Length
              && buf[..] == old(buf[..])[..top - |out|] + Reversed(out) + old(buf[..])[top..]
              && ret == if out == [] then 0 else out[|out| - 1]
  {
    hide Midway, InPlace, Decodable, Output, Reversed;
    ret := 0;
    if end == None { return; }
    var e := end.value;
    ghost var orig := buf[..];
    Begin(orig, e);
    ghost var top, want := Top(orig, e), Output(orig, e);
    var v1 := Dword(buf[..], e - 8);
    var v2: nat := e + Dword(buf[..], e - 4);
    var v3: nat := e - v1 / 0x100_0000;
    var v4: nat := e - v1 % 0x100_0000;
    var v5: byte, v7 := 0, 0;
    ghost var out: seq<byte> := [];
    while v3 > v4
      invariant Midway(buf[..], orig, top, want, v2, v3, v4, v5, 0, out)
      invariant ret == if out == [] then 0 else out[|out| - 1]
      decreases v3
    {
      ghost var before := v3;
      ReadFlags(buf[..], orig, top, want, v2, v3, v4, v5, out);
      v5 := buf[v3 - 1];
      v3 := v3 - 1;
      v7 := 8;
      while v7 >= 1
        invariant 0 <= v7 <= 8 && (v7 > 0 ==> v3 > v4) && v3 < before
        invariant Midway(buf[..], orig, top, want, v2, v3, v4, v5, v7, out)
        invariant ret == if out == [] then 0 else out[|out| - 1]
        decreases v7
      {
        v7 := v7 - 1;
        ret, v2, v3, out := OneToken(buf, v2, v3, v4, v5, v7 + 1, orig, top, want, out);
        v5 := (v5 as int) * 2 % 0x100;
        if v3 <= v4 {
          AllDone(buf[..], orig, top, want, v2, v3, v4, v5, v7, out);
          return;
        }
      }
    }
    AllDone(buf[..], orig, top, want, v2, v3, v4, v5, 0, out);
  }

  // ------------------------------------------------------------------------------------------
  // What the format means: a list of tokens

  datatype Token = Literal(b: byte) | Match(hi: byte, lo: byte)

  /** The output of a list of tokens. */
  function Expand(ts: seq<Token>, out: seq<byte>): Option<seq<byte>> {
    if ts == [] then Some(out)
    else match ts[0]
      case Literal(b) => Expand(ts[1..], out + [b])
      case Match(hi, lo) =>
        if MatchOffset(hi, lo) >= |out| then None
        else Expand(ts[1..], CopyBack(out, MatchOffset(hi, lo), MatchLength(hi)))
  }

  function Bytes(ts: seq<Token>): seq<byte> {
    if ts == [] then []
    else match ts[0]
      case Literal(b) => [b] + Bytes(ts[1..])
      case Match(hi, lo) => [hi, lo] + Bytes(ts[1..])
  }

  function Pow2(j: nat): (p: nat)
    ensures p >= 1
  {
    if j == 0 then 1 else 2 * Pow2(j - 1)
  }

  /** The flags of up to `j` + 1 tokens, the first at bit `j`. */
  function Flags(ts: seq<Token>, j: nat): (f: nat)
    requires |ts| <= j + 1
    ensures f < Pow2(j + 1)
  {
    if ts == [] then 0
    else (if ts[0].Match? then Pow2(j) else 0) + if j == 0 then 0 else Flags(ts[1..], j - 1)
  }

  /** The encoding: the tokens in groups of eight, each group after the byte with its flags. */
  function Encode(ts: seq<Token>): seq<byte> {
    assert Pow2(8) == 0x100;
    if ts == [] then []
    else if |ts| <= 8 then [Flags(ts, 7)] + Bytes(ts)
    else [Flags(ts[..8], 7)] + Bytes(ts[..8]) + Encode(ts[8..])
  }

  lemma {:induction false} FlagsDouble(ts: seq<Token>, j: nat)
    requires |ts| <= j + 1
    ensures Flags(ts, j + 1) == 2 * Flags(ts, j)
  {
    if ts != [] && j > 0 {
      FlagsDouble(ts[1..], j - 1);
    } else if ts != [] {
      assert ts[1..] == [];
    }
  }

  lemma ShiftOut(top: bool, rest: nat)
    requires rest < 0x80
    ensures ((if top then 0x80 else 0) + rest) * 2 % 0x100 == 2 * rest
  {
  }

  /** The top flag is that of the first token; shifting makes the next one the top flag. */
  lemma FlagsShift(ts: seq<Token>)
    requires 0 < |ts| <= 8
    ensures Flags(ts, 7) < 0x100 && (Flags(ts, 7) >= 0x80 <==> ts[0].Match?)
    ensures Flags(ts, 7) * 2 % 0x100 == Flags(ts[1..], 7)
  {
    assert Pow2(7) == 0x80 && Pow2(8) == 0x100;
    FlagsDouble(ts[1..], 6);
    ShiftOut(ts[0].Match?, Flags(ts[1..], 6));
  }

  /** A token in front of more input. */
  lemma DecodeToken(t: Token, ts: seq<Token>, k: nat, out: seq<byte>, rest: seq<byte>)
    requires 0 < k && |ts| < 8
    ensures Flags([t] + ts, 7) < 0x100 && Flags(ts, 7) < 0x100
    ensures
      var d := Decode(Bytes([t] + ts) + rest, Flags([t] + ts, 7), k, out);
      if t.Literal? then d == Decode(Bytes(ts) + rest, Flags(ts, 7), k - 1, out + [t.b])
      else if MatchOffset(t.hi, t.lo) >= |out| then d == None
      else d == Decode(Bytes(ts) + rest, Flags(ts, 7), k - 1, CopyBack(out, MatchOffset(t.hi, t.lo), MatchLength(t.hi)))
  {
    hide Flags, CopyBack, MatchOffset, MatchLength;
    var all := [t] + ts;
    assert all[1..] == ts;
    FlagsShift(all);
    FlagsBound(ts);
    var input := Bytes(all) + rest;
    match t {
      case Literal(b) =>
        assert input[1..] == Bytes(ts) + rest;
      case Match(hi, lo) =>
        assert input[2..] == Bytes(ts) + rest;
    }
  }

  lemma FlagsBound(ts: seq<Token>)
    requires |ts| <= 8
    ensures Flags(ts, 7) < 0x100
  {
    assert Pow2(8) == 0x100;
  }

  lemma ExpandToken(t: Token, ts: seq<Token>, out: seq<byte>)
    ensures
      if t.Literal? then Expand([t] + ts, out) == Expand(ts, out + [t.b])
      else if MatchOffset(t.hi, t.lo) >= |out| then Expand([t] + ts, out) == None
      else Expand([t] + ts, out) == Expand(ts, CopyBack(out, MatchOffset(t.hi, t.lo), MatchLength(t.hi)))
  {
    assert ([t] + ts)[1..] == ts;
  }

  lemma DecodeNone(k: nat, out: seq<byte>, rest: seq<byte>, more: seq<Token>)
    requires (rest != [] ==> k == 0) && (rest == [] <==> more == [])
    requires forall o: seq<byte> :: rest != [] ==> Decode(rest, 0, 0, o) == Expand(more, o)
    ensures Decode(Bytes([]) + rest, Flags([], 7), k, out) == Expand([] + more, out)
  {
    assert Bytes([]) + rest == rest && [] + more == more;
    if rest != [] {
      assert Decode(rest, 0, 0, out) == Decode(rest, Flags([], 7), 0, out);
    }
  }

  /** One token more, in front of the tokens of a group. */
  lemma DecodeFirst(t: Token, us: seq<Token>, k: nat, out: seq<byte>, rest: seq<byte>, more: seq<Token>)
    requires 0 < k && |us| < 8 && Flags(us, 7) < 0x100 && Flags([t] + us, 7) < 0x100
    requires t.Literal? ==> Decode(Bytes(us) + rest, Flags(us, 7), k - 1, out + [t.b]) == Expand(us + more, out + [t.b])
    requires t.Match? && MatchOffset(t.hi, t.lo) < |out| ==>
               var out' := CopyBack(out, MatchOffset(t.hi, t.lo), MatchLength(t.hi));
               Decode(Bytes(us) + rest, Flags(us, 7), k - 1, out') == Expand(us + more, out')
    ensures Decode(Bytes([t] + us) + rest, Flags([t] + us, 7), k, out) == Expand([t] + us + more, out)
  {
    hide *;
    DecodeToken(t, us, k, out, rest);
    ExpandToken(t, us + more, out);
    assert [t] + us + more == [t] + (us + more);
  }

  /** A group of tokens, decoded. */
  lemma {:induction false} DecodeGroup(ts: seq<Token>, k: nat, out: seq<byte>, rest: seq<byte>, more: seq<Token>)
    requires |ts| <= 8 && |ts| <= k && (rest != [] ==> k == |ts|) && (rest == [] <==> more == [])
    requires forall o: seq<byte> :: rest != [] ==> Decode(rest, 0, 0, o) == Expand(more, o)
    ensures Flags(ts, 7) < 0x100
    ensures Decode(Bytes(ts) + rest, Flags(ts, 7), k, out) == Expand(ts + more, out)
    decreases |ts|
  {
    hide *;
    FlagsBound(ts);
    if ts == [] {
      DecodeNone(k, out, rest, more);
    } else {
      var t, us := ts[0], ts[1..];
      assert ts == [t] + us;
      FlagsBound(us);
      if t.Literal? {
        DecodeGroup(us, k - 1, out + [t.b], rest, more);
      } else if MatchOffset(t.hi, t.lo) < |out| {
        DecodeGroup(us, k - 1, CopyBack(out, MatchOffset(t.hi, t.lo), MatchLength(t.hi)), rest, more);
      }
      DecodeFirst(t, us, k, out, rest, more);
    }
  }

  /** Decoding an encoding gives the output of the tokens. */
  lemma {:induction false} DecodeEncode(ts: seq<Token>, out: seq<byte>)
    ensures Decode(Encode(ts), 0, 0, out) == Expand(ts, out)
    decreases |ts|
  {
    if ts != [] {
      assert Pow2(8) == 0x100;
      var group, more := if |ts| <= 8 then ts else ts[..8], if |ts| <= 8 then [] else ts[8..];
      assert ts == group + more;
      var rest := Encode(more);
      forall o: seq<byte> | rest != []
        ensures Decode(rest, 0, 0, o) == Expand(more, o)
      {
        DecodeEncode(more, o);
      }
      assert Encode(ts) == [Flags(group, 7)] + (Bytes(group) + rest);
      assert Encode(ts)[1..] == Bytes(group) + rest;
      DecodeGroup(group, 8, out, rest, more);
      assert |Bytes(group)| > 0;
    }
  }

  // ------------------------------------------------------------------------------------------
  // The same for copies given by length and distance

  datatype Symbol = Byte(b: byte) | Copy(length: nat, distance: nat)

  ghost predicate Codable(ss: seq<Symbol>) {
    forall i :: 0 <= i < |ss| && ss[i].Copy? ==> 3 <= ss[i].length <= 18 && 3 <= ss[i].distance <= 0x1002
  }

  /** What the symbols say: a byte, or `length` more bytes, each the one `distance` places back. */
  ghost function Play(ss: seq<Symbol>, out: seq<byte>): Option<seq<byte>> {
    if ss == [] then Some(out)
    else match ss[0]
      case Byte(b) => Play(ss[1..], out + [b])
      case Copy(length, distance) => if distance == 0 || distance > |out| then None
                                     else Play(ss[1..], CopyBack(out, distance - 1, length))
  }

  /** The tokens for symbols: of the two bytes of a copy, the first has the length in its upper four bits, and the
      rest is the distance. */
  function Tokens(ss: seq<Symbol>): (ts: seq<Token>)
    requires Codable(ss)
    ensures |ts| == |ss|
    ensures forall i :: 0 <= i < |ss| ==>
              match ss[i]
              case Byte(b) => ts[i] == Literal(b)
              case Copy(length, distance) => ts[i] == Match((length - 3) * 0x10 + (distance - 3) / 0x100, (distance - 3) % 0x100)
  {
    seq(|ss|, i requires 0 <= i < |ss| =>
      match ss[i]
      case Byte(b) => Literal(b)
      case Copy(length, distance) => Match((length - 3) * 0x10 + (distance - 3) / 0x100, (distance - 3) % 0x100))
  }

  lemma PairMeans(length: nat, distance: nat)
    requires 3 <= length <= 18 && 3 <= distance <= 0x1002
    ensures
      var hi: byte, lo: byte := (length - 3) * 0x10 + (distance - 3) / 0x100, (distance - 3) % 0x100;
      MatchLength(hi) == length && MatchOffset(hi, lo) == distance - 1
  {
  }

  lemma {:induction false} PlayExpands(ss: seq<Symbol>, out: seq<byte>)
    requires Codable(ss)
    ensures Expand(Tokens(ss), out) == Play(ss, out)
    decreases |ss|
  {
    if ss != [] {
      hide CopyBack, MatchLength, MatchOffset;
      assert Tokens(ss)[1..] == Tokens(ss[1..]);
      match ss[0] {
        case Byte(b) => PlayExpands(ss[1..], out + [b]);
        case Copy(length, distance) =>
          PairMeans(length, distance);
          if distance <= |out| {
            PlayExpands(ss[1..], CopyBack(out, distance - 1, length));
          }
      }
    }
  }

  /** Decoding the encoding of symbols gives what they say. */
  lemma DecodePlays(ss: seq<Symbol>)
    requires Codable(ss)
    ensures Decode(Encode(Tokens(ss)), 0, 0, []) == Play(ss, [])
  {
    DecodeEncode(Tokens(ss), []);
    PlayExpands(ss, []);
  }

  /** The flag of token `i` of a group is bit 7 - `i`, and set for a match. */
  lemma {:induction false} FlagBits(ts: seq<Token>, i: nat)
    requires i < |ts| <= 8
    ensures Flags(ts, 7) / [0x80, 0x40, 0x20, 0x10, 8, 4, 2, 1][i] % 2 == if ts[i].Match? then 1 else 0
  {
    FlagAt(ts, 7, i);
    assert Pow2(0) == 1 && Pow2(1) == 2 && Pow2(2) == 4 && Pow2(3) == 8;
    assert Pow2(4) == 0x10 && Pow2(5) == 0x20 && Pow2(6) == 0x40 && Pow2(7) == 0x80;
  }

  lemma {:induction false} FlagAt(ts: seq<Token>, j: nat, i: nat)
    requires i < |ts| <= j + 1
    ensures Flags(ts, j) / Pow2(j - i) % 2 == if ts[i].Match? then 1 else 0
    decreases j
  {
    var top := if ts[0].Match? then 1 else 0;
    var rest := if j == 0 then 0 else Flags(ts[1..], j - 1);
    if i == 0 {
      Arith.DivModUnique(Flags(ts, j), Pow2(j), top, rest);
    } else {
      FlagAt(ts[1..], j - 1, i - 1);
      HigherBits(rest, Pow2(j - i), Pow2(i - 1), top);
      PowerSplit(j - i, i);
    }
  }

  lemma {:induction false} PowerSplit(a: nat, b: nat)
    requires b > 0
    ensures Pow2(a + b) == Pow2(a) * (2 * Pow2(b - 1))
    decreases b
  {
    if b > 1 {
      PowerSplit(a, b - 1);
    }
  }

  lemma HigherBits(rest: nat, p: nat, q: nat, top: nat)
    requires p > 0 && top <= 1
    ensures (top * (p * (2 * q)) + rest) / p % 2 == rest / p % 2
  {
    if top == 1 {
      var k, r := rest / p, rest % p;
      assert rest == k * p + r;
      assert p * (2 * q) + rest == (2 * q + k) * p + r;
      Arith.DivModUnique(p * (2 * q) + rest, p, 2 * q + k, r);
    }
  }

  lemma DecodeByte(b: byte, rest: seq<byte>, flags: byte, k: nat, out: seq<byte>)
    requires k > 0 && flags < 0x80
    ensures Decode([b] + rest, flags, k, out) == Decode(rest, flags * 2 % 0x100, k - 1, out + [b])
  {
    assert ([b] + rest)[1..] == rest;
  }

  /** A stream: the flags of five tokens, four bytes, and a copy of three bytes from four places back. */
  lemma FiveTokens(a: byte, b: byte, c: byte, d: byte)
    ensures Decode([0x08, a, b, c, d, 0x00, 0x01], 0, 0, []) == Some([a, b, c, d, a, b, c])
  {
    hide *;
    var pair: seq<byte>, out: seq<byte> := [0x00, 0x01], [a] + [b] + [c] + [d];
    DecodeFlags(0x08, [a] + ([b] + ([c] + ([d] + pair))));
    assert [0x08] + ([a] + ([b] + ([c] + ([d] + pair)))) == [0x08, a, b, c, d, 0x00, 0x01];
    DecodeByte(a, [b] + ([c] + ([d] + pair)), 0x08, 8, []);
    assert [] + [a] == [a];
    DecodeByte(b, [c] + ([d] + pair), 0x10, 7, [a]);
    DecodeByte(c, [d] + pair, 0x20, 6, [a] + [b]);
    DecodeByte(d, pair, 0x40, 5, [a] + [b] + [c]);
    PairMeans(3, 4);
    DecodePair(0x00, 0x01, 0x80, 4, out);
    CopyOfFour(a, b, c, d);
  }

  lemma CopyOfFour(a: byte, b: byte, c: byte, d: byte)
    ensures CopyBack([a] + [b] + [c] + [d], 3, 3) == [a, b, c, d, a, b, c]
  {
    hide CopyBack;
    var out: seq<byte> := [a] + [b] + [c] + [d];
    var r := CopyBack(out, 3, 3);
    assert r[..4] == out && r[4] == r[0] && r[5] == r[1] && r[6] == r[2];
    assert r == r[..4] + [r[4]] + [r[5]] + [r[6]];
  }

  lemma DecodeFlags(flags: byte, rest: seq<byte>)
    requires rest != []
    ensures Decode([flags] + rest, 0, 0, []) == Decode(rest, flags, 8, [])
  {
    assert ([flags] + rest)[1..] == rest;
  }

  lemma DecodePair(hi: byte, lo: byte, flags: byte, k: nat, out: seq<byte>)
    requires k > 0 && flags >= 0x80 && MatchOffset(hi, lo) < |out|
    ensures Decode([hi, lo], flags, k, out) == Some(CopyBack(out, MatchOffset(hi, lo), MatchLength(hi)))
  {
    assert [hi, lo][2..] == [];
  }
}

/**
  The Internet checksum of Util/ProtocoIStream.cpp, and the algebra that RFC 1071 promises of it.

  A 16-bit word is two bytes of the buffer as a little-endian machine reads them.
 */
module Checksums {
  import opened Bytes

  const MAX_SIZE: nat := 131074

  function Word(data: seq<byte>, i: nat): (w: nat)
    requires 2 * i + 1 < |data|
    ensures w < 0x1_0000
  {
    data[2 * i] as int + 0x100 * (data[2 * i + 1] as int)
  }

  function Words(data: seq<byte>): (ws: seq<nat>)
    ensures |ws| == |data| / 2
    ensures forall i :: 0 <= i < |ws| ==> ws[i] < 0x1_0000
  {
    seq(|data| / 2, i requires 0 <= i < |data| / 2 => Word(data, i))
  }

  /** The byte left over at an odd length, which is added as it is. */
  function Odd(data: seq<byte>): nat {
    if |data| % 2 == 1 then data[|data| - 1] else 0
  }

  function Sum(ws: seq<nat>): nat {
    if ws == [] then 0 else Sum(ws[..|ws| - 1]) + ws[|ws| - 1]
  }

  /** The sum of the words and the odd byte, with no limit on its size. */
  function Total(data: seq<byte>): nat {
    Sum(Words(data)) + Odd(data)
  }

  /** The one's complement sum: the number in `0..65535` that is congruent modulo 65535, and 0 only for 0. */
  function Fold(s: nat): (f: nat)
    ensures f <= 0xffff
    ensures f % 0xffff == s % 0xffff
    ensures f == 0 <==> s == 0
  {
    if s == 0 then 0 else (s - 1) % 0xffff + 1
  }

  /** The checksum that RFC 1071, section 1, defines. */
  function Rfc(data: seq<byte>): nat {
    0xffff - Fold(Total(data))
  }

  // ---------- the code ----------

  /** One round of the folding loop keeps the one's complement sum and gets smaller. */
  lemma FoldRound(s: nat)
    requires s >= 0x1_0000
    ensures Fold(s / 0x1_0000 + s % 0x1_0000) == Fold(s)
    ensures s / 0x1_0000 + s % 0x1_0000 < s
  {
    var hi, lo := s / 0x1_0000, s % 0x1_0000;
    assert s == 0xffff * hi + (hi + lo);
    FoldIsModulo(s, hi + lo, hi);
  }

  lemma FoldIsModulo(s: nat, t: nat, k: nat)
    requires s == t + 0xffff * k && (t == 0 ==> s == 0)
    ensures Fold(s) == Fold(t)
  {
    if t != 0 {
      assert (s - 1) % 0xffff == (t - 1) % 0xffff;
    }
  }

  /** A 32-bit accumulator. */
  function Wrap(s: nat): (r: nat)
    ensures r < 0x1_0000_0000
  {
    s % 0x1_0000_0000
  }

  lemma WrapAdd(s: nat, w: nat)
    ensures Wrap(Wrap(s) + w) == Wrap(s + w)
  {}

  /** The checksum that a 32-bit accumulator leads to. */
  function Computed(data: seq<byte>): (c: nat)
    ensures c < 0x1_0000
  {
    0xffff - Fold(Wrap(Total(data)))
  }

  /** `checksum`, with its 32-bit accumulator. */
  method Checksum(data: seq<byte>) returns (c: nat)
    ensures c == Computed(data)
  {
    var sum, size, i := 0, |data|, 0;
    ghost var ws := Words(data);
    while size > 1
      invariant 0 <= size == |data| - 2 * i && i <= |ws|
      invariant sum == Wrap(Sum(ws[..i]))
      decreases size
    {
      assert ws[..i + 1][..i] == ws[..i];
      WrapAdd(Sum(ws[..i]), Word(data, i));
      sum := Wrap(sum + Word(data, i));
      size, i := size - 2, i + 1;
    }
    assert ws[..i] == ws;
    WrapAdd(Sum(ws), Odd(data));
    if size != 0 {
      sum := Wrap(sum + data[2 * i]);
    }
    c := FoldDown(sum);
  }

  /** The folding loop and the final complement. */
  method FoldDown(s: nat) returns (c: nat)
    ensures c == 0xffff - Fold(s)
  {
    var sum := s;
    while sum / 0x1_0000 != 0
      invariant Fold(sum) == Fold(s)
      decreases sum
    {
      FoldRound(sum);
      sum := sum / 0x1_0000 + sum % 0x1_0000;
    }
    c := 0xffff - sum;
  }

  /** From a 32-bit accumulator the folding loop ends within two rounds. */
  lemma TwoRoundsSuffice(s: nat)
    requires s < 0x1_0000_0000
    ensures var once := s / 0x1_0000 + s % 0x1_0000;
            once / 0x1_0000 + once % 0x1_0000 < 0x1_0000
  {}

  // ---------- overflow ----------

  lemma {:induction false} SumBound(ws: seq<nat>)
    requires forall i :: 0 <= i < |ws| ==> ws[i] < 0x1_0000
    ensures Sum(ws) <= 0xffff * |ws|
    decreases |ws|
  {
    if ws != [] {
      assert ws[|ws| - 1] in ws && forall w <- ws[..|ws| - 1] :: w in ws;
      SumBound(ws[..|ws| - 1]);
    }
  }

  lemma TotalBound(data: seq<byte>)
    ensures Total(data) <= 0xffff * ((|data| + 1) / 2)
  {
    SumBound(Words(data));
  }

  /** Up to 131074 bytes the accumulator cannot overflow. */
  lemma NoOverflow(data: seq<byte>)
    requires |data| <= MAX_SIZE
    ensures Wrap(Total(data)) == Total(data)
  {
    TotalBound(data);
  }

  lemma {:induction false} SumOfFull(n: nat)
    ensures Sum(seq(n, _ => 0xffff)) == 0xffff * n
  {
    if n > 0 {
      SumOfFull(n - 1);
      assert seq<nat>(n, _ => 0xffff)[..n - 1] == seq<nat>(n - 1, _ => 0xffff);
    }
  }

  /** The bound is tight: two more bytes are enough for an overflow and a wrong checksum. */
  lemma OverflowExample()
    ensures var data := seq<byte>(MAX_SIZE + 2, _ => 0xff);
            Computed(data) != Rfc(data)
  {
    var data := seq<byte>(MAX_SIZE + 2, _ => 0xff);
    assert Words(data) == seq<nat>(65538, _ => 0xffff);
    SumOfFull(65538);
  }

  /** For every buffer whose size is an `int`, the code computes the checksum of RFC 1071 if and only if the sum of the
      words fits the accumulator. */
  lemma MeetsRfcIff(data: seq<byte>)
    requires |data| < 0x8000_0000
    ensures Computed(data) == Rfc(data) <==> Total(data) < 0x1_0000_0000
  {
    TotalBound(data);
    FoldWrapIff(Total(data));
  }

  /** Each overflow loses 1 of the sum modulo 65535. */
  lemma FoldWrapIff(t: nat)
    requires t < 0xffff * 0x1_0000_0000
    ensures Fold(Wrap(t)) == Fold(t) <==> t < 0x1_0000_0000
  {
    var s, wraps := Wrap(t), t / 0x1_0000_0000;
    assert t == (s + wraps) + 0xffff * (0x10001 * wraps);
    ModuloShift(s + wraps, 0x10001 * wraps);
    if 0 < wraps {
      NoSmallPeriod(s, wraps);
    }
  }

  lemma ModuloShift(a: nat, k: nat)
    ensures (a + 0xffff * k) % 0xffff == a % 0xffff
  {}

  lemma NoSmallPeriod(s: nat, k: nat)
    requires 0 < k < 0xffff
    ensures s % 0xffff != (s + k) % 0xffff
  {}

  // ---------- one's complement algebra ----------

  /** Reordering the words of a buffer does not change its checksum, overflow or not; a byte left over stays last. */
  lemma PermutationInvariant(data: seq<byte>, other: seq<byte>)
    requires Odd(data) == Odd(other)
    requires multiset(Words(data)) == multiset(Words(other))
    ensures Computed(data) == Computed(other)
  {
    SumOfPermutation(Words(data), Words(other));
  }

  lemma {:induction false} SumOfPermutation(ws: seq<nat>, vs: seq<nat>)
    requires multiset(ws) == multiset(vs)
    ensures Sum(ws) == Sum(vs)
    decreases |ws|
  {
    if ws == [] {
      assert |multiset(vs)| == 0;
    } else {
      var w, init := ws[|ws| - 1], ws[..|ws| - 1];
      assert ws == init + [w];
      assert w in multiset(ws) && w in multiset(vs);
      var a, b := SplitAt(vs, w);
      Cancel(multiset(init), multiset(a + b), w);
      SumOfPermutation(init, a + b);
      SumOfThree(a, w, b);
    }
  }

  lemma SplitAt(vs: seq<nat>, w: nat) returns (a: seq<nat>, b: seq<nat>)
    requires w in vs
    ensures vs == a + [w] + b
    ensures multiset(vs) == multiset(a + b) + multiset{w}
  {
    var i :| 0 <= i < |vs| && vs[i] == w;
    a, b := vs[..i], vs[i + 1..];
    assert vs == a + [w] + b;
  }

  lemma Cancel(m: multiset<nat>, n: multiset<nat>, w: nat)
    requires m + multiset{w} == n + multiset{w}
    ensures m == n
  {
    assert m == (m + multiset{w}) - multiset{w};
    assert n == (n + multiset{w}) - multiset{w};
  }

  lemma SumOfThree(a: seq<nat>, w: nat, b: seq<nat>)
    ensures Sum(a + [w] + b) == Sum(a + b) + w
  {
    SumConcat(a, b);
    SumConcat(a + [w], b);
    SumSnoc(a, w);
  }

  lemma SumSnoc(ws: seq<nat>, w: nat)
    ensures Sum(ws + [w]) == Sum(ws) + w
  {
    assert (ws + [w])[..|ws|] == ws;
  }

  lemma {:induction false} SumConcat(ws: seq<nat>, vs: seq<nat>)
    ensures Sum(ws + vs) == Sum(ws) + Sum(vs)
    decreases |vs|
  {
    if vs == [] {
      assert ws + vs == ws;
    } else {
      var init, v := vs[..|vs| - 1], vs[|vs| - 1];
      SumConcat(ws, init);
      assert ws + vs == (ws + init) + [v];
      SumSnoc(ws + init, v);
    }
  }

  /** Addition with end-around carry. */
  function OnesAdd(x: nat, y: nat): nat {
    Fold(x + y)
  }

  lemma Excess(s: nat) returns (k: nat)
    ensures s == Fold(s) + 0xffff * k
  {
    k := (s - Fold(s)) / 0xffff;
  }

  lemma FoldAdd(s: nat, t: nat)
    ensures Fold(Fold(s) + t) == Fold(s + t)
  {
    var k := Excess(s);
    FoldIsModulo(s + t, Fold(s) + t, k);
  }

  lemma TotalConcat(data: seq<byte>, more: seq<byte>)
    requires |data| % 2 == 0
    ensures Total(data + more) == Total(data) + Total(more)
  {
    assert Words(data + more) == Words(data) + Words(more);
    SumConcat(Words(data), Words(more));
  }

  /** A buffer cut after an even number of bytes can be summed in parts, which are then added with end-around carry; so
      does the code if and only if the accumulators of the parts do not overflow together, as within the size bound. */
  lemma SplitsInParts(data: seq<byte>, more: seq<byte>)
    requires |data| % 2 == 0
    ensures 0xffff - Rfc(data + more) == OnesAdd(0xffff - Rfc(data), 0xffff - Rfc(more))
    ensures 0xffff - Computed(data + more) == OnesAdd(0xffff - Computed(data), 0xffff - Computed(more))
            <==> Wrap(Total(data)) + Wrap(Total(more)) < 0x1_0000_0000
    ensures |data| + |more| <= MAX_SIZE ==> Wrap(Total(data)) + Wrap(Total(more)) < 0x1_0000_0000
  {
    TotalConcat(data, more);
    SumsSplit(Total(data), Total(more), Total(data + more));
    if |data| + |more| <= MAX_SIZE { PartsFit(data, more); }
  }

  lemma SumsSplit(s: nat, t: nat, whole: nat)
    requires whole == s + t
    ensures Fold(whole) == OnesAdd(Fold(s), Fold(t))
    ensures Fold(Wrap(whole)) == OnesAdd(Fold(Wrap(s)), Fold(Wrap(t))) <==> Wrap(s) + Wrap(t) < 0x1_0000_0000
  {
    FoldOfSum(s, t);
    WrapsTogetherIff(s, t);
  }

  lemma PartsFit(data: seq<byte>, more: seq<byte>)
    requires |data| % 2 == 0 && |data| + |more| <= MAX_SIZE
    ensures Wrap(Total(data)) + Wrap(Total(more)) < 0x1_0000_0000
  {
    NoOverflow(data);
    NoOverflow(more);
    TotalBound(data + more);
    TotalConcat(data, more);
  }

  lemma WrapsTogetherIff(s: nat, t: nat)
    ensures Fold(Wrap(s + t)) == OnesAdd(Fold(Wrap(s)), Fold(Wrap(t))) <==> Wrap(s) + Wrap(t) < 0x1_0000_0000
  {
    FoldOfSum(Wrap(s), Wrap(t));
    WrapOfSum(s, t);
    FoldWrapIff(Wrap(s) + Wrap(t));
  }

  lemma FoldOfSum(s: nat, t: nat)
    ensures OnesAdd(Fold(s), Fold(t)) == Fold(s + t)
  {
    FoldAdd(s, t);
    FoldAdd(t, Fold(s));
  }

  lemma WrapOfSum(s: nat, t: nat)
    ensures Wrap(Wrap(s) + Wrap(t)) == Wrap(s + t)
  {
    WrapAdd(s, Wrap(t));
    WrapAdd(t, s);
  }

  /** One byte and two bytes, the second one being the higher; with `SplitsInParts` they determine every checksum. */
  lemma SmallChecksums(low: byte, high: byte)
    ensures Rfc([]) == Computed([]) == 0xffff
    ensures Rfc([low]) == Computed([low]) == 0xffff - low
    ensures Rfc([low, high]) == Computed([low, high]) == 0xffff - (low + 0x100 * high)
  {
    SmallTotals(low, high);
    FoldOfSmall(0);
    FoldOfSmall(low);
    FoldOfSmall(low + 0x100 * high);
  }

  lemma SmallTotals(low: byte, high: byte)
    ensures Total([]) == 0 && Total([low]) == low && Total([low, high]) == low + 0x100 * high
  {
    var pair: seq<byte> := [low, high];
    var w := Word(pair, 0);
    assert w == low + 0x100 * high;
    assert Words(pair) == [w];
    SumOfOne(w);
  }

  lemma SumOfOne(w: nat)
    ensures Sum([w]) == w
  {
    assert [w][..0] == [];
  }

  lemma FoldOfSmall(s: nat)
    requires s <= 0xffff
    ensures Fold(s) == s && Wrap(s) == s
  {}

  /** Data of odd length has the checksum of the data with a zero byte behind it, overflow or not. */
  lemma OddIsPadded(data: seq<byte>)
    requires |data| % 2 == 1
    ensures Rfc(data) == Rfc(data + [0]) && Computed(data) == Computed(data + [0])
  {
    var last := data[|data| - 1];
    assert Words(data + [0]) == Words(data) + [last];
    SumSnoc(Words(data), last);
  }

  /** The two bytes of a checksum, as they are stored behind the data. */
  function WordBytes(w: nat): (b: seq<byte>)
    requires w < 0x1_0000
    ensures |b| == 2 && Word(b, 0) == w
  {
    [w % 0x100, w / 0x100]
  }

  /** Even-length data followed by a word sums up to all ones if and only if the word is its checksum (or the other
      one's complement zero).  The code says so if and only if the word does not make the accumulator overflow. */
  lemma VerifiesIff(data: seq<byte>, c: nat)
    requires |data| % 2 == 0 && c < 0x1_0000
    ensures Rfc(data + WordBytes(c)) == 0 <==> c == Rfc(data) || (c == 0xffff && Rfc(data) == 0)
    ensures Computed(data + WordBytes(c)) == 0
            <==> (c == Computed(data) || (c == 0xffff && Computed(data) == 0)) && Wrap(Total(data)) + c < 0x1_0000_0000
    ensures |data| + 2 <= MAX_SIZE ==> Wrap(Total(data)) + c < 0x1_0000_0000
  {
    TotalOfAppended(data, c);
    AppendedIff(Total(data), c, Total(data + WordBytes(c)));
    if |data| + 2 <= MAX_SIZE { RoomForAWord(data, c); }
  }

  lemma RoomForAWord(data: seq<byte>, c: nat)
    requires |data| % 2 == 0 && c < 0x1_0000 && |data| + 2 <= MAX_SIZE
    ensures Wrap(Total(data)) + c < 0x1_0000_0000
  {
    NoOverflow(data);
    TotalBound(data);
  }

  lemma AppendedIff(t: nat, c: nat, whole: nat)
    requires whole == t + c && c <= 0xffff
    ensures 0xffff - Fold(whole) == 0 <==> c == 0xffff - Fold(t) || (c == 0xffff && 0xffff - Fold(t) == 0)
    ensures 0xffff - Fold(Wrap(whole)) == 0
            <==> (c == 0xffff - Fold(Wrap(t)) || (c == 0xffff && 0xffff - Fold(Wrap(t)) == 0))
                 && Wrap(t) + c < 0x1_0000_0000
  {
    FoldedAllOnesIff(t, c);
    WrappedAllOnesIff(t, c);
  }

  lemma TotalOfAppended(data: seq<byte>, c: nat)
    requires |data| % 2 == 0 && c < 0x1_0000
    ensures Total(data + WordBytes(c)) == Total(data) + c
  {
    TotalConcat(data, WordBytes(c));
    assert Words(WordBytes(c)) == [c];
    SumOfOne(c);
  }

  lemma FoldedAllOnesIff(t: nat, c: nat)
    requires c <= 0xffff
    ensures Fold(t + c) == 0xffff <==> c == 0xffff - Fold(t) || (c == 0xffff && Fold(t) == 0xffff)
  {
    FoldAdd(t, c);
    AllOnesIff(Fold(t), c);
  }

  lemma AllOnesIff(f: nat, c: nat)
    requires f <= 0xffff && c <= 0xffff
    ensures Fold(f + c) == 0xffff <==> c == 0xffff - f || (c == 0xffff && f == 0xffff)
  {}

  lemma WrappedAllOnesIff(t: nat, c: nat)
    requires c <= 0xffff
    ensures var f := Fold(Wrap(t));
            Fold(Wrap(t + c)) == 0xffff
            <==> (c == 0xffff - f || (c == 0xffff && f == 0xffff)) && Wrap(t) + c < 0x1_0000_0000
  {
    var s := Wrap(t);
    WrapAdd(t, c);
    FoldedAllOnesIff(s, c);
    if s + c < 0x1_0000_0000 {
      assert Wrap(s + c) == s + c;
    } else {
      assert Wrap(s + c) == s + c - 0x1_0000_0000 < 0xffff;
    }
  }

  /** What the code computes for data with its own checksum appended is 0 if and only if the checksum does not make the
      accumulator overflow, as within the size bound. */
  lemma AppendedChecksumVerifies(data: seq<byte>)
    requires |data| % 2 == 0
    ensures Computed(data + WordBytes(Computed(data))) == 0 <==> Wrap(Total(data)) + Computed(data) < 0x1_0000_0000
    ensures |data| + 2 <= MAX_SIZE ==> Computed(data + WordBytes(Computed(data))) == 0
  {
    VerifiesIff(data, Computed(data));
  }

  // ---------- byte order ----------

  function Swapped(w: nat): (v: nat)
    requires w < 0x1_0000
    ensures v < 0x1_0000
  {
    w % 0x100 * 0x100 + w / 0x100
  }

  function SwapBytes(data: seq<byte>): (r: seq<byte>)
    requires |data| % 2 == 0
    ensures |r| == |data|
  {
    seq(|data|, i requires 0 <= i < |data| => if i % 2 == 0 then data[i + 1] else data[i - 1])
  }

  lemma SwappedWord(data: seq<byte>, i: nat)
    requires |data| % 2 == 0 && i < |data| / 2
    ensures Word(SwapBytes(data), i) == Swapped(Word(data, i))
  {
    var b := SwapBytes(data);
    assert b[2 * i] == data[2 * i + 1] && b[2 * i + 1] == data[2 * i];
  }

  /** Swapping the bytes of a word multiplies it by 256 modulo 65535. */
  lemma {:induction false} SumOfSwapped(ws: seq<nat>, vs: seq<nat>) returns (k: nat)
    requires |ws| == |vs| && forall i :: 0 <= i < |ws| ==> ws[i] < 0x1_0000 && vs[i] == Swapped(ws[i])
    ensures 0x100 * Sum(ws) == Sum(vs) + 0xffff * k
    ensures Sum(vs) == 0 ==> Sum(ws) == 0
    decreases |ws|
  {
    if ws == [] {
      k := 0;
    } else {
      var n := |ws| - 1;
      var k' := SumOfSwapped(ws[..n], vs[..n]);
      k := k' + ws[n] / 0x100;
      assert 0x100 * ws[n] == Swapped(ws[n]) + 0xffff * (ws[n] / 0x100);
    }
  }

  lemma SwappedIsShift(f: nat)
    requires f < 0x1_0000
    ensures 0x100 * f == Swapped(f) + 0xffff * (f / 0x100)
    ensures Swapped(f) == 0 ==> f == 0
    ensures Fold(Swapped(f)) == Swapped(f)
  {}

  lemma FoldOfSwapped(s: nat, t: nat, k: nat)
    requires 0x100 * s == t + 0xffff * k && (t == 0 ==> s == 0)
    ensures Fold(t) == Swapped(Fold(s))
  {
    var f := Fold(s);
    var j := Excess(s);
    FoldIsModulo(0x100 * s, t, k);
    FoldIsModulo(0x100 * s, 0x100 * f, 0x100 * j);
    SwappedIsShift(f);
    FoldIsModulo(0x100 * f, Swapped(f), f / 0x100);
  }

  lemma SwappedComplement(f: nat)
    requires f < 0x1_0000
    ensures Swapped(0xffff - f) == 0xffff - Swapped(f)
  {
    var hi, lo := f / 0x100, f % 0x100;
    assert 0xffff - f == 0x100 * (0xff - hi) + (0xff - lo);
  }

  lemma TotalOfSwapped(data: seq<byte>)
    requires |data| % 2 == 0
    ensures Fold(Total(SwapBytes(data))) == Swapped(Fold(Total(data)))
  {
    var ws, vs := Words(data), Words(SwapBytes(data));
    forall i | 0 <= i < |ws| ensures ws[i] < 0x1_0000 && vs[i] == Swapped(ws[i]) {
      SwappedWord(data, i);
    }
    var k := SumOfSwapped(ws, vs);
    FoldOfSwapped(Sum(ws), Sum(vs), k);
  }

  /** Byte-swapping every word of the data byte-swaps the checksum, the computed one within the size bound. */
  lemma ByteOrderIndependent(data: seq<byte>)
    requires |data| % 2 == 0
    ensures Rfc(SwapBytes(data)) == Swapped(Rfc(data))
    ensures |data| <= MAX_SIZE ==> Computed(SwapBytes(data)) == Swapped(Computed(data))
  {
    TotalOfSwapped(data);
    SwappedComplement(Fold(Total(data)));
    if |data| <= MAX_SIZE {
      NoOverflow(data);
      NoOverflow(SwapBytes(data));
    }
  }
}

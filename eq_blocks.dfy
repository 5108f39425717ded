/** Variable-length blocks laid end to end in a word array: the encoding of a
    list of records and the walk that reads them back, shared by the FIR and
    IIR coefficient data. */
module SofEqBlocks {
  import opened SofEqTypes

  /** The blocks `f(x)` for `x` in `xs`, laid end to end in order. */
  function FlatMap<T, U>(f: T -> seq<U>, xs: seq<T>): seq<U>
  {
    if xs == [] then [] else f(xs[0]) + FlatMap(f, xs[1..])
  }

  /** The blocks before `i`, block `i` and the blocks after it, in that order. */
  lemma {:induction false} FlatMapSplit<T, U>(f: T -> seq<U>, xs: seq<T>, i: nat)
    requires i < |xs|
    ensures FlatMap(f, xs) == FlatMap(f, xs[..i]) + f(xs[i]) + FlatMap(f, xs[i + 1..])
  {
    if i == 0 {
      assert xs[..0] == [];
    } else {
      var tail := xs[1..];
      var pre := xs[..i];
      FlatMapSplit(f, tail, i - 1);
      assert tail[..i - 1] == pre[1..];
      assert tail[i - 1] == xs[i];
      assert tail[i..] == xs[i + 1..];
      var head := f(xs[0]);
      var a := FlatMap(f, pre[1..]);
      var e := f(xs[i]);
      var b := FlatMap(f, xs[i + 1..]);
      assert FlatMap(f, xs) == head + (a + e + b);
      assert pre != [] && pre[0] == xs[0];
      assert FlatMap(f, pre) == head + a;
      assert head + (a + e + b) == (head + a) + e + b;
    }
  }

  /** A window of `s` that equals `x + y` splits into a window equal to `x`
      followed by one equal to `y`. */
  lemma SliceOfConcat<T>(s: seq<T>, lo: nat, hi: nat, x: seq<T>, y: seq<T>)
    requires lo <= hi <= |s| && s[lo .. hi] == x + y
    ensures lo + |x| <= hi
    ensures s[lo .. lo + |x|] == x && s[lo + |x| .. hi] == y
  {
    assert s[lo .. hi][..|x|] == x;
    assert s[lo .. hi][|x|..] == y;
  }

  /** A window of `s` equal to `w` contains, at the same relative position,
      every window of `w`. */
  lemma SliceOfSlice<T>(s: seq<T>, lo: nat, hi: nat, w: seq<T>, a: nat, b: nat)
    requires lo <= hi <= |s| && s[lo .. hi] == w && a <= b <= |w|
    ensures lo + b <= hi && s[lo + a .. lo + b] == w[a .. b]
  {
    forall j | 0 <= j < b - a
      ensures s[lo + a .. lo + b][j] == w[a .. b][j]
    {
      assert s[lo .. hi][a + j] == s[lo + a + j];
    }
  }

  /** Reads `count` consecutive blocks with `block`, which reads one block at a
      word offset and gives the record with the offset just past it; the walk
      stops at the first error. */
  function DecodeBlocks<T, W>(block: (seq<W>, nat) -> Result<(T, nat)>, data: seq<W>, off: nat, count: nat)
    : (r: Result<(seq<T>, nat)>)
    ensures r.Ok? ==> |r.value.0| == count
    decreases count
  {
    if count == 0 then Ok(([], off))
    else
      match block(data, off)
      case Err(e) => Err(e)
      case Ok((x, next)) =>
        match DecodeBlocks(block, data, next, count - 1)
        case Err(e) => Err(e)
        case Ok((xs, end)) => Ok(([x] + xs, end))
  }

  /** `block` accepts only valid records, and only where their encoding is stored. */
  ghost predicate ReadsOnlyEncoding<T(!new), W(!new)>(block: (seq<W>, nat) -> Result<(T, nat)>, enc: T -> seq<W>, valid: T -> bool)
  {
    forall d: seq<W>, o: nat | block(d, o).Ok? ::
      && valid(block(d, o).value.0)
      && o + |enc(block(d, o).value.0)| == block(d, o).value.1 <= |d|
      && d[o .. block(d, o).value.1] == enc(block(d, o).value.0)
  }

  /** `block` accepts every valid record wherever its encoding is stored. */
  ghost predicate ReadsEveryEncoding<T(!new), W(!new)>(block: (seq<W>, nat) -> Result<(T, nat)>, enc: T -> seq<W>, valid: T -> bool)
  {
    forall d: seq<W>, o: nat, next: nat, x: T | valid(x) && next == o + |enc(x)| <= |d| && d[o .. next] == enc(x) ::
      block(d, o) == Ok((x, next))
  }

  /** A walk that succeeds has read valid records whose encodings, laid end to
      end, are exactly the words it consumed. */
  lemma {:induction false} DecodeBlocksSound<T(!new), W(!new)>(block: (seq<W>, nat) -> Result<(T, nat)>, enc: T -> seq<W>,
                                                   valid: T -> bool, data: seq<W>, off: nat, count: nat)
    requires ReadsOnlyEncoding(block, enc, valid)
    requires off <= |data| && DecodeBlocks(block, data, off, count).Ok?
    ensures var (xs, end) := DecodeBlocks(block, data, off, count).value;
      && (forall i | 0 <= i < |xs| :: valid(xs[i]))
      && end == off + |FlatMap(enc, xs)| <= |data|
      && data[off .. end] == FlatMap(enc, xs)
    decreases count
  {
    if count > 0 {
      var (x, next) := block(data, off).value;
      DecodeBlocksSound(block, enc, valid, data, next, count - 1);
      var (rest, end) := DecodeBlocks(block, data, next, count - 1).value;
      var xs := [x] + rest;
      assert DecodeBlocks(block, data, off, count).value == (xs, end);
      assert xs[0] == x && xs[1..] == rest;
      assert FlatMap(enc, xs) == enc(x) + FlatMap(enc, rest);
      assert data[off .. end] == data[off .. next] + data[next .. end];
    }
  }

  /** Walking the encodings of valid records, wherever they are stored, gives
      the records back and the offset just past the last one. */
  lemma {:induction false} DecodeBlocksComplete<T(!new), W(!new)>(block: (seq<W>, nat) -> Result<(T, nat)>, enc: T -> seq<W>,
                                                      valid: T -> bool, data: seq<W>, off: nat, end: nat, xs: seq<T>)
    requires ReadsEveryEncoding(block, enc, valid)
    requires forall i | 0 <= i < |xs| :: valid(xs[i])
    requires end == off + |FlatMap(enc, xs)| <= |data|
    requires data[off .. end] == FlatMap(enc, xs)
    ensures DecodeBlocks(block, data, off, |xs|) == Ok((xs, end))
    decreases |xs|
  {
    if xs != [] {
      var x := xs[0];
      var e := enc(x);
      var rest := FlatMap(enc, xs[1..]);
      var next := off + |e|;
      assert FlatMap(enc, xs) == e + rest;
      SliceOfConcat(data, off, end, e, rest);
      assert valid(x);
      assert block(data, off) == Ok((x, next));
      DecodeBlocksComplete(block, enc, valid, data, next, end, xs[1..]);
      assert |xs[1..]| == |xs| - 1;
      DecodeBlocksStep(block, data, off, |xs|, x, next, xs[1..], end);
      assert [x] + xs[1..] == xs;
    }
  }

  /** One step of the walk: the first block followed by the walk over the rest. */
  lemma DecodeBlocksStep<T, W>(block: (seq<W>, nat) -> Result<(T, nat)>, data: seq<W>, off: nat, count: nat,
                               x: T, next: nat, rest: seq<T>, end: nat)
    requires 0 < count
    requires block(data, off) == Ok((x, next))
    requires DecodeBlocks(block, data, next, count - 1) == Ok((rest, end))
    ensures DecodeBlocks(block, data, off, count) == Ok(([x] + rest, end))
  {
  }

  /** The blocks up to and including `i` are those before `i` followed by block `i`. */
  lemma FlatMapPrefixStep<T, U>(f: T -> seq<U>, xs: seq<T>, i: nat)
    requires i < |xs|
    ensures FlatMap(f, xs[..i + 1]) == FlatMap(f, xs[..i]) + f(xs[i])
  {
    var pre := xs[..i + 1];
    FlatMapSplit(f, pre, i);
    assert pre[..i] == xs[..i] && pre[i + 1..] == [];
  }

  /** Block `i` follows the blocks before it. */
  lemma FlatMapBlockIn<T, U>(f: T -> seq<U>, xs: seq<T>, i: nat)
    requires i < |xs|
    ensures var a := |FlatMap(f, xs[..i])|;
      && a + |f(xs[i])| <= |FlatMap(f, xs)|
      && FlatMap(f, xs)[a .. a + |f(xs[i])|] == f(xs[i])
  {
    FlatMapSplit(f, xs, i);
    var a := FlatMap(f, xs[..i]);
    var e := f(xs[i]);
    var b := FlatMap(f, xs[i + 1..]);
    assert (a + e + b)[|a| .. |a| + |e|] == e;
  }

  /** In a window of `s` holding the blocks of `xs`, block `i` lies between the
      end of the blocks before it and the end of the blocks up to it. */
  lemma FlatMapBlockAt<T, U>(s: seq<U>, lo: nat, f: T -> seq<U>, xs: seq<T>, i: nat, o: nat, next: nat)
    requires lo + |FlatMap(f, xs)| <= |s| && s[lo .. lo + |FlatMap(f, xs)|] == FlatMap(f, xs)
    requires i < |xs|
    requires o == lo + |FlatMap(f, xs[..i])| && next == o + |f(xs[i])|
    ensures next <= lo + |FlatMap(f, xs)|
    ensures s[o .. next] == f(xs[i])
  {
    var a := |FlatMap(f, xs[..i])|;
    var n := |f(xs[i])|;
    FlatMapBlockIn(f, xs, i);
    SliceOfSlice(s, lo, lo + |FlatMap(f, xs)|, FlatMap(f, xs), a, a + n);
  }
}

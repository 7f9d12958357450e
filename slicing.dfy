/**
 * The `Indexer` of arcesetc/tests/legacy_specutils/indexer.py: an affine
 * index map `k -> start + k*step` cut off at `stop`, with Python-style slices
 * applied on top of it. Indexers are values: slicing builds a new one.
 */
module Slicing {
  import opened Outcomes

  /** `ValueError("slice step cannot be zero")`. */
  datatype IndexError = ZeroStep

  /** A Python `slice(start, stop, step)`; `None` where a bound is omitted. */
  datatype Slice = Slice(start: Option<int>, stop: Option<int>, step: Option<int>)

  function Abs(x: int): nat {
    if x < 0 then -x else x
  }

  /** `ceil(a / b)` for a non-negative numerator and a positive denominator. */
  function CeilDiv(a: nat, b: nat): (q: nat)
    requires b > 0
    ensures q * b >= a && (q - 1) * b < a
  {
    var q := (a + b - 1) / b;
    assert a + b - 1 == q * b + (a + b - 1) % b;
    q
  }

  /** `v` lies strictly before `stop` when walking in the direction of `step`: what `evaluate` keeps. */
  predicate Before(v: int, stop: int, step: int) {
    if step > 0 then v < stop else v > stop
  }

  /** `np.arange(n)`. */
  function Range(n: nat): (r: seq<int>)
    ensures |r| == n && forall i :: 0 <= i < n ==> r[i] == i
  {
    seq(n, i => i)
  }

  /**
   * Indexer.evaluate: map each index `i` to `i*step + start`, then delete the
   * results at or beyond `stop` in the direction of `step`.
   */
  function Evaluate(indices: seq<int>, start: int, stop: int, step: int): (r: seq<int>)
    ensures |r| <= |indices|
    ensures forall j :: 0 <= j < |r| ==> Before(r[j], stop, step)
  {
    if indices == [] then []
    else
      var v := indices[0] * step + start;
      (if Before(v, stop, step) then [v] else []) + Evaluate(indices[1..], start, stop, step)
  }

  /** evaluate works index by index and keeps their order. */
  lemma {:induction false} EvaluateAppend(a: seq<int>, b: seq<int>, start: int, stop: int, step: int)
    ensures Evaluate(a + b, start, stop, step) == Evaluate(a, start, stop, step) + Evaluate(b, start, stop, step)
    decreases |a|
  {
    if a != [] {
      assert (a + b)[1..] == a[1..] + b;
      EvaluateAppend(a[1..], b, start, stop, step);
    } else {
      assert a + b == b;
    }
  }

  /** A single index is kept exactly when its image is before `stop`. */
  lemma EvaluateOne(i: int, start: int, stop: int, step: int)
    ensures Evaluate([i], start, stop, step)
         == if Before(i * step + start, stop, step) then [i * step + start] else []
  {
    assert [i][1..] == [];
  }

  /** When every image is before `stop`, evaluate deletes nothing. */
  lemma {:induction false} EvaluateKeepsAll(indices: seq<int>, start: int, stop: int, step: int)
    requires forall i :: 0 <= i < |indices| ==> Before(indices[i] * step + start, stop, step)
    ensures Evaluate(indices, start, stop, step)
         == seq(|indices|, i requires 0 <= i < |indices| => indices[i] * step + start)
    decreases |indices|
  {
    if indices != [] {
      var tail := indices[1..];
      assert forall i :: 0 <= i < |tail| ==> tail[i] == indices[i + 1];
      EvaluateKeepsAll(tail, start, stop, step);
    }
  }

  /** Indexer.__init__: a zero step is rejected. */
  function Make(start: int, stop: int, step: int): (r: Result<Indexer, IndexError>)
    ensures r.Ok? <==> step != 0
    ensures r.Err? ==> r.error == ZeroStep
    ensures r.Ok? ==> r.value.Valid() && r.value == Indexer(start, stop, step)
  {
    if step == 0 then Err(ZeroStep) else Ok(Indexer(start, stop, step))
  }

  /** `start += length if start < 0 else 0`, then clamp into `[0, length - 1]`, as `_parse_slice` does. */
  function ClampStart(v: int, length: nat): (a: int)
    ensures length == 0 ==> a == -1
    ensures length > 0 ==> 0 <= a < length
    ensures -(length as int) <= v < length ==> a == (if v < 0 then v + length else v)
    ensures length > 0 && v < -(length as int) ==> a == 0
    ensures v >= length ==> a == length - 1
  {
    var shifted := if v < 0 then v + length else v;
    var low := if shifted < 0 then 0 else shifted;
    if low >= length then length - 1 else low
  }

  /** `stop += length if stop < 0 else 0`, then clamp into `[-1, length]`, as `_parse_slice` does. */
  function ClampStop(v: int, length: nat): (b: int)
    ensures -1 <= b <= length
    ensures -(length as int) <= v <= length ==> b == (if v < 0 then v + length else v)
    ensures v < -(length as int) ==> b == -1
    ensures v > length ==> b == length
  {
    var shifted := if v < 0 then v + length else v;
    var low := if shifted < 0 then -1 else shifted;
    if low > length then length else low
  }

  datatype Indexer = Indexer(start: int, stop: int, step: int) {

    /** Every Indexer that `__init__` lets through has a non-zero step. */
    predicate Valid() {
      step != 0
    }

    /** The index the `k`-th position stands for. */
    function At(k: int): int {
      start + k * step
    }

    /** Indexer.length: 0 for a range pointing away from `stop`, else `ceil(|start - stop| / |step|)`. */
    function Length(): nat
      requires Valid()
    {
      if (start - stop) * step > 0 then 0 else CeilDiv(Abs(start - stop), Abs(step))
    }

    /** Indexer.__call__: `evaluate` of the given indices, or of `0 .. length - 1`. */
    function Call(indices: Option<seq<int>>): seq<int>
      requires Valid()
    {
      var idx := if indices.Some? then indices.value else Range(Length());
      Evaluate(idx, start, stop, step)
    }

    /** Indexer._parse_slice: the slice's step, start and stop after defaulting and clamping. */
    function ParseSlice(s: Slice): (r: Result<(int, int, int), IndexError>)
      requires Valid()
      ensures r.Err? <==> s.step == Some(0)
      ensures r.Err? ==> r.error == ZeroStep
      ensures r.Ok? ==> r.value.2 != 0 && r.value.2 == (if s.step.Some? then s.step.value else 1)
      // omitted bounds: (0, length) going forwards, (length - 1, -1) going backwards
      ensures r.Ok? && s.start.None? ==> r.value.0 == (if r.value.2 < 0 then Length() - 1 else 0)
      ensures r.Ok? && s.stop.None? ==> r.value.1 == (if r.value.2 < 0 then -1 else Length())
      ensures r.Ok? && s.start.Some? ==> r.value.0 == ClampStart(s.start.value, Length())
      ensures r.Ok? && s.stop.Some? ==> r.value.1 == ClampStop(s.stop.value, Length())
    {
      if s.step == Some(0) then Err(ZeroStep)
      else
        var L := Length();
        var st := if s.step.Some? then s.step.value else 1;
        var defaultStart := if st < 0 then L - 1 else 0;
        var defaultStop := if st < 0 then -1 else L;
        var a := if s.start.Some? then ClampStart(s.start.value, L) else defaultStart;
        var b := if s.stop.Some? then ClampStop(s.stop.value, L) else defaultStop;
        Ok((a, b, st))
    }

    /** Indexer.__getitem__: a new indexer for the parsed slice, taken in this one's positions. */
    function GetItem(s: Slice): (r: Result<Indexer, IndexError>)
      requires Valid()
      ensures r.Err? <==> s.step == Some(0)
      ensures r.Err? ==> r.error == ZeroStep
      ensures r.Ok? ==> r.value.Valid()
    {
      match ParseSlice(s)
      case Err(e) => Err(e)
      case Ok((a, b, c)) => Make(start + a * step, start + b * step, step * c)
    }
  }

  /**
   * The positions an indexer enumerates are exactly the `k` whose image lies
   * before `stop`: `length` counts them.
   */
  lemma LengthCounts(ix: Indexer, k: nat)
    requires ix.Valid()
    ensures k < ix.Length() <==> Before(ix.At(k), ix.stop, ix.step)
  {
    var d, s := ix.stop - ix.start, ix.step;
    assert ix.At(k) - ix.stop == k * s - d;
    if s > 0 {
      assert k * s >= 0 by { MulNonNegative(k, s); }
      if d < 0 {
        assert (ix.start - ix.stop) * s > 0 by { MulPositive(-d, s); }
      } else {
        assert (ix.start - ix.stop) * s <= 0 by { MulNonNegative(d, s); }
        CeilDivCounts(d, s, k);
      }
    } else {
      assert k * (-s) >= 0 by { MulNonNegative(k, -s); }
      assert k * s == -(k * (-s));
      if d > 0 {
        assert (ix.start - ix.stop) * s > 0 by { MulPositive(d, -s); }
      } else {
        assert (ix.start - ix.stop) * s <= 0 by { MulNonNegative(-d, -s); }
        CeilDivCounts(-d, -s, k);
      }
    }
  }

  lemma MulNonNegative(x: int, y: int)
    requires x >= 0 && y >= 0
    ensures x * y >= 0
  {
  }

  lemma MulPositive(x: int, y: int)
    requires x > 0 && y > 0
    ensures x * y > 0
  {
  }

  /** `k < ceil(a / b)` exactly when `k*b < a`. */
  lemma CeilDivCounts(a: nat, b: nat, k: nat)
    requires b > 0
    ensures k < CeilDiv(a, b) <==> k * b < a
  {
    var q := CeilDiv(a, b);
    if k < q {
      assert k * b <= (q - 1) * b by { MulMonotone(k, q - 1, b); }
    } else {
      assert q * b <= k * b by { MulMonotone(q, k, b); }
    }
  }

  lemma MulMonotone(x: int, y: int, b: nat)
    requires x <= y
    ensures x * b <= y * b
  {
    assert y * b - x * b == (y - x) * b;
    MulNonNegative(y - x, b);
  }

  /** `__call__()` with no argument yields every position of the indexer, none deleted, in order. */
  lemma CallAll(ix: Indexer)
    requires ix.Valid()
    ensures ix.Call(None) == seq(ix.Length(), k => ix.At(k))
    ensures forall j :: 0 <= j < |ix.Call(None)| ==> Before(ix.Call(None)[j], ix.stop, ix.step)
  {
    var n := ix.Length();
    var idx := Range(n);
    forall i | 0 <= i < |idx| ensures Before(idx[i] * ix.step + ix.start, ix.stop, ix.step) {
      LengthCounts(ix, i);
      assert idx[i] * ix.step + ix.start == ix.At(i);
    }
    EvaluateKeepsAll(idx, ix.start, ix.stop, ix.step);
    assert forall i :: 0 <= i < n ==> idx[i] * ix.step + ix.start == ix.At(i);
  }

  /** The indexer `__getitem__` builds from parsed slice bounds `(a, b, c)`. */
  function Compose(ix: Indexer, inner: Indexer): Indexer {
    Indexer(ix.start + inner.start * ix.step, ix.start + inner.stop * ix.step, ix.step * inner.step)
  }

  /** Composing scales both sides of a `Before` by the same non-zero step, so nothing changes sides. */
  lemma ComposeAt(ix: Indexer, inner: Indexer, k: nat)
    requires ix.Valid() && inner.Valid()
    ensures Compose(ix, inner).At(k) == ix.At(inner.At(k))
    ensures Before(Compose(ix, inner).At(k), Compose(ix, inner).stop, Compose(ix, inner).step)
        <==> Before(inner.At(k), inner.stop, inner.step)
  {
    var C := Compose(ix, inner);
    ComposeGap(ix, inner, k);
    BeforeSign(C.At(k), C.stop, C.step);
    BeforeSign(inner.At(k), inner.stop, inner.step);
    ScaledSign(inner.At(k) - inner.stop, ix.step, inner.step);
  }

  /** The composed indexer's `k`-th value, and its gap to `stop`, in terms of the inner indexer's. */
  lemma ComposeGap(ix: Indexer, inner: Indexer, k: nat)
    ensures Compose(ix, inner).At(k) == ix.At(inner.At(k))
    ensures Compose(ix, inner).At(k) - Compose(ix, inner).stop == (inner.At(k) - inner.stop) * ix.step
  {
    var s, c := ix.step, inner.step;
    assert k * (s * c) == (k * c) * s;
    assert (inner.start + k * c) * s == inner.start * s + (k * c) * s;
    assert (inner.At(k) - inner.stop) * s == inner.At(k) * s - inner.stop * s;
  }

  /** Multiplying a gap by `s` and the step by `s` keeps the sign of their product. */
  lemma ScaledSign(x: int, s: int, c: int)
    requires s != 0
    ensures (x * s) * (s * c) < 0 <==> x * c < 0
  {
    assert (x * s) * (s * c) == (x * c) * (s * s);
    assert s * s > 0 by {
      if s > 0 { MulPositive(s, s); } else { MulPositive(-s, -s); }
    }
    SignOfScaled(x * c, s * s);
  }

  /** For a non-zero step, being before `stop` is the sign of `(v - stop) * step`. */
  lemma BeforeSign(v: int, stop: int, step: int)
    requires step != 0
    ensures Before(v, stop, step) <==> (v - stop) * step < 0
  {
    if step > 0 {
      if v < stop { MulPositive(stop - v, step); } else { MulNonNegative(v - stop, step); }
    } else {
      if v > stop { MulPositive(v - stop, -step); } else { MulNonNegative(stop - v, -step); }
    }
  }

  lemma SignOfScaled(y: int, q: int)
    requires q > 0
    ensures y * q < 0 <==> y < 0
  {
    if y < 0 { MulPositive(-y, q); } else { MulNonNegative(y, q); }
  }

  /**
   * Two slices compose into one: the composed indexer enumerates this
   * indexer's values at exactly the positions the inner one enumerates.
   */
  lemma ComposeCall(ix: Indexer, inner: Indexer)
    requires ix.Valid() && inner.Valid()
    ensures Compose(ix, inner).Valid()
    ensures var positions := inner.Call(None);
      Compose(ix, inner).Call(None) == seq(|positions|, j requires 0 <= j < |positions| => ix.At(positions[j]))
  {
    var C := Compose(ix, inner);
    assert C.step != 0 by {
      if ix.step > 0 && inner.step > 0 { MulPositive(ix.step, inner.step); }
      else if ix.step > 0 { MulPositive(ix.step, -inner.step); }
      else if inner.step > 0 { MulPositive(-ix.step, inner.step); }
      else { MulPositive(-ix.step, -inner.step); }
    }
    var n, m := C.Length(), inner.Length();
    if n < m {
      LengthCounts(C, n); LengthCounts(inner, n); ComposeAt(ix, inner, n);
    } else if m < n {
      LengthCounts(C, m); LengthCounts(inner, m); ComposeAt(ix, inner, m);
    }
    CallAll(C);
    CallAll(inner);
    forall k | 0 <= k < n ensures C.At(k) == ix.At(inner.At(k)) {
      ComposeAt(ix, inner, k);
    }
  }

  /**
   * __getitem__ builds an indexer with a non-zero step that enumerates this
   * indexer's values at the positions of the parsed slice.
   */
  lemma GetItemComposes(ix: Indexer, s: Slice)
    requires ix.Valid() && s.step != Some(0)
    ensures ix.ParseSlice(s).Ok? && ix.GetItem(s).Ok?
    ensures var (a, b, c) := ix.ParseSlice(s).value;
      var positions := Indexer(a, b, c).Call(None);
      ix.GetItem(s).value.Call(None) == seq(|positions|, j requires 0 <= j < |positions| => ix.At(positions[j]))
  {
    var (a, b, c) := ix.ParseSlice(s).value;
    ComposeCall(ix, Indexer(a, b, c));
  }
}

module SlicingIntended {
  import opened Outcomes
  import opened Slicing

  /**
   * Clamping as Python's `slice.indices` does it: into `[0, length]` going
   * forwards and into `[-1, length - 1]` going backwards, after the usual
   * shift of a negative bound.
   */
  function ClampIntended(v: int, length: nat, step: int): (a: int)
    requires step != 0
    ensures step > 0 ==> 0 <= a <= length
    ensures step < 0 ==> -1 <= a <= length - 1
    ensures -(length as int) <= v < length ==> a == (if v < 0 then v + length else v)
  {
    var lower := if step < 0 then -1 else 0;
    var upper := if step < 0 then length - 1 else length;
    var shifted := if v < 0 then v + length else v;
    if shifted < lower then lower else if shifted > upper then upper else shifted
  }

  /** `_parse_slice` with both bounds clamped per direction. */
  function ParseSliceIntended(ix: Indexer, s: Slice): (r: Result<(int, int, int), IndexError>)
    requires ix.Valid()
    ensures r.Err? <==> s.step == Some(0)
    ensures r.Ok? ==> r.value.2 == (if s.step.Some? then s.step.value else 1)
    // omitted bounds default exactly as in `_parse_slice`
    ensures r.Ok? && s.start.None? ==> r.value.0 == ix.ParseSlice(s).value.0
    ensures r.Ok? && s.stop.None? ==> r.value.1 == ix.ParseSlice(s).value.1
  {
    if s.step == Some(0) then Err(ZeroStep)
    else
      var L := ix.Length();
      var st := if s.step.Some? then s.step.value else 1;
      var a := if s.start.Some? then ClampIntended(s.start.value, L, st) else if st < 0 then L - 1 else 0;
      var b := if s.stop.Some? then ClampIntended(s.stop.value, L, st) else if st < 0 then -1 else L;
      Ok((a, b, st))
  }

  /** `__getitem__` over the direction-aware parse. */
  function GetItemIntended(ix: Indexer, s: Slice): (r: Result<Indexer, IndexError>)
    requires ix.Valid()
    ensures r.Err? <==> s.step == Some(0)
    ensures r.Ok? ==> r.value.Valid()
  {
    match ParseSliceIntended(ix, s)
    case Err(e) => Err(e)
    case Ok((a, b, c)) => Make(ix.start + a * ix.step, ix.start + b * ix.step, ix.step * c)
  }

  /** Every position the direction-aware parse selects is one of the indexer's own positions. */
  lemma ParsedPositionsInRange(ix: Indexer, s: Slice)
    requires ix.Valid() && s.step != Some(0)
    ensures var (a, b, c) := ParseSliceIntended(ix, s).value;
      forall p :: p in Indexer(a, b, c).Call(None) ==> 0 <= p < ix.Length()
  {
    var (a, b, c) := ParseSliceIntended(ix, s).value;
    var inner := Indexer(a, b, c);
    CallAll(inner);
    forall p | p in inner.Call(None) ensures 0 <= p < ix.Length() {
      var j :| 0 <= j < |inner.Call(None)| && inner.Call(None)[j] == p;
      assert p == a + j * c;
      assert Before(p, b, c);
      if c > 0 {
        MulNonNegative(j, c);
      } else {
        MulNonNegative(j, -c);
        assert j * c == -(j * (-c));
      }
    }
  }

  /**
   * Slicing then calling yields only values the indexer itself yields,
   * in the order of the parsed positions.
   */
  lemma GetItemIntendedSelects(ix: Indexer, s: Slice)
    requires ix.Valid() && s.step != Some(0)
    ensures var r := GetItemIntended(ix, s).value.Call(None);
      forall v :: v in r ==> v in ix.Call(None)
  {
    var (a, b, c) := ParseSliceIntended(ix, s).value;
    var inner := Indexer(a, b, c);
    var positions := inner.Call(None);
    ComposeCall(ix, inner);
    ParsedPositionsInRange(ix, s);
    CallAll(ix);
    var r := GetItemIntended(ix, s).value.Call(None);
    forall v | v in r ensures v in ix.Call(None) {
      var j :| 0 <= j < |r| && r[j] == v;
      assert v == ix.At(positions[j]);
      assert positions[j] in positions;
      assert ix.Call(None)[positions[j]] == v;
    }
  }

  /** A start past the end of a forward slice selects nothing, as in Python. */
  lemma StartPastEndIsEmpty(ix: Indexer, v: int, c: int)
    requires ix.Valid() && c > 0 && v >= ix.Length()
    ensures GetItemIntended(ix, Slice(Some(v), None, Some(c))).value.Call(None) == []
  {
    var (a, b, c') := ParseSliceIntended(ix, Slice(Some(v), None, Some(c))).value;
    assert a == ix.Length() && b == ix.Length();
    ComposeCall(ix, Indexer(a, b, c'));
    CallAll(Indexer(a, b, c'));
    LengthCounts(Indexer(a, b, c'), 0);
  }

  /**
   * As written, `_parse_slice` clamps a start past the end to the last
   * position whatever the direction: `[0, 1, 2][10:]` selects `[2]`, and on an
   * empty indexer `[0:]` selects position -1, an index outside the range. A
   * start before the beginning of a backward slice is clamped to 0, so
   * `[0, 1, 2][-10::-1]` selects `[0]` where Python selects nothing.
   */
  lemma ParseSliceClampsPastEnd()
    ensures Indexer(0, 3, 1).GetItem(Slice(Some(10), None, None)) == Ok(Indexer(2, 3, 1))
    ensures Indexer(2, 3, 1).Call(None) == [2]
    ensures GetItemIntended(Indexer(0, 3, 1), Slice(Some(10), None, None)) == Ok(Indexer(3, 3, 1))
    ensures Indexer(3, 3, 1).Call(None) == []
    ensures Indexer(5, 5, 1).Call(None) == []
    ensures Indexer(5, 5, 1).GetItem(Slice(Some(0), None, None)) == Ok(Indexer(4, 5, 1))
    ensures Indexer(4, 5, 1).Call(None) == [4]
    ensures Indexer(0, 3, 1).GetItem(Slice(Some(-10), None, Some(-1))) == Ok(Indexer(0, -1, -1))
    ensures Indexer(0, -1, -1).Call(None) == [0]
    ensures GetItemIntended(Indexer(0, 3, 1), Slice(Some(-10), None, Some(-1))) == Ok(Indexer(-1, -1, -1))
    ensures Indexer(-1, -1, -1).Call(None) == []
  {
    assert Indexer(2, 3, 1).Length() == 1;
    assert Range(1) == [0];
    EvaluateOne(0, 2, 3, 1);
    assert Indexer(3, 3, 1).Length() == 0;
    assert Indexer(5, 5, 1).Length() == 0;
    assert Indexer(4, 5, 1).Length() == 1;
    EvaluateOne(0, 4, 5, 1);
    assert Indexer(0, -1, -1).Length() == 1;
    EvaluateOne(0, 0, -1, -1);
    assert Indexer(-1, -1, -1).Length() == 0;
  }
}

/** A naive rope (`src/rope.rs`): a list of borrowed views, never copied.

    Slicing clips views, and substitution re-assembles clipped views of the
    original with the views of a replacement rope, so every character that
    survives keeps its identity and no identity is ever made up. */
module Ropes {
  import opened Options
  import opened Views

  /** The fragments of a rope, in order (`Rope::data`). */
  datatype Rope = Rope(data: seq<View>)

  /** A half-open match range in flattened-text coordinates (`Range<usize>`). */
  datatype Range = Range(start: nat, end: nat)

  function Min(a: nat, b: nat): nat {
    if a <= b then a else b
  }

  // ---------------------------------------------------------------------
  // Flattening, identities and length

  /** The characters of a list of fragments, in order. */
  function Concat(data: seq<View>): seq<char> {
    if data == [] then [] else Text(data[0]) + Concat(data[1..])
  }

  /** The identities of a list of fragments, in order. */
  function ConcatIds(data: seq<View>): seq<Addr> {
    if data == [] then [] else Ids(data[0]) + ConcatIds(data[1..])
  }

  /** The sum of the fragment lengths: one entry per character and per identity. */
  function SumWidths(data: seq<View>): (n: nat)
    ensures n == |Concat(data)| && n == |ConcatIds(data)|
  {
    if data == [] then 0 else Width(data[0]) + SumWidths(data[1..])
  }

  lemma {:induction false} ConcatAppend(a: seq<View>, b: seq<View>)
    ensures Concat(a + b) == Concat(a) + Concat(b)
    ensures ConcatIds(a + b) == ConcatIds(a) + ConcatIds(b)
  {
    if a == [] {
      assert a + b == b;
    } else {
      assert (a + b)[1..] == a[1..] + b;
      ConcatAppend(a[1..], b);
    }
  }

  /** The rope's text, as `Display` writes it. */
  function Flatten(r: Rope): (t: seq<char>)
    ensures |t| == SumWidths(r.data)
  {
    Concat(r.data)
  }

  /** The identity of every character of the rope, in flattened order. */
  function Identities(r: Rope): (ids: seq<Addr>)
    ensures |ids| == SumWidths(r.data)
  {
    ConcatIds(r.data)
  }

  /** `Rope::len`: the sum of the fragment lengths. */
  function Len(r: Rope): (n: nat)
    ensures n == |Flatten(r)| && n == |Identities(r)|
  {
    SumWidths(r.data)
  }

  /** `Rope::is_empty`. */
  function IsEmpty(r: Rope): (b: bool)
    ensures b <==> Flatten(r) == []
  {
    Len(r) == 0
  }

  /** `Rope::new`: no fragments. */
  function New(): (r: Rope)
    ensures Len(r) == 0 && IsEmpty(r) && Identities(r) == []
  {
    Rope([])
  }

  /** `From<&str>`: one fragment spanning the view. */
  function FromStr(v: View): (r: Rope)
    ensures Flatten(r) == Text(v) && Identities(r) == Ids(v) && Len(r) == Width(v)
  {
    assert Concat([v]) == Text(v) + Concat([]);
    assert ConcatIds([v]) == Ids(v) + ConcatIds([]);
    Rope([v])
  }

  /** `Rope::append`: the other rope's fragments go after this one's. */
  function Append(r: Rope, other: Rope): (res: Rope)
    ensures |r.data| <= |res.data| && res.data[..|r.data|] == r.data
    ensures Flatten(res) == Flatten(r) + Flatten(other)
    ensures Identities(res) == Identities(r) + Identities(other)
  {
    ConcatAppend(r.data, other.data);
    Rope(r.data + other.data)
  }

  /** The fragment at index `i` holds the part of the rope's text and identities
      that starts after the fragments before it; inside it identities increase. */
  lemma {:induction false} FragmentIdentities(r: Rope, i: nat)
    requires i < |r.data|
    ensures var o := SumWidths(r.data[..i]);
      && o + Width(r.data[i]) <= Len(r)
      && Flatten(r)[o..o + Width(r.data[i])] == Text(r.data[i])
      && Identities(r)[o..o + Width(r.data[i])] == Ids(r.data[i])
      && Increasing(Identities(r)[o..o + Width(r.data[i])])
  {
    var before, v, after := r.data[..i], r.data[i], r.data[i + 1..];
    assert r.data == before + ([v] + after);
    ConcatAppend(before, [v] + after);
    ConcatAppend([v], after);
    assert Concat([v]) == Text(v) by { assert [v][1..] == []; }
    assert ConcatIds([v]) == Ids(v) by { assert [v][1..] == []; }
  }

  // ---------------------------------------------------------------------
  // Slicing

  function Clamp(x: int, n: nat): (c: nat)
    ensures c <= n
  {
    if x < 0 then 0 else if x > n then n else x
  }

  /** The fragments `slice` emits from `data`, whose first fragment starts at
      offset `sStart` of the rope: fragments wholly before `start` are skipped,
      the walk stops at the first fragment that starts at or after `end`, and
      the others are clipped to `start .. end`. */
  function SliceFrom(data: seq<View>, sStart: nat, start: nat, end: nat): seq<View>
    requires start <= end
  {
    if data == [] then []
    else
      var v := data[0];
      var sEnd := sStart + Width(v);
      if sEnd <= start then SliceFrom(data[1..], sEnd, start, end)
      else if sStart >= end then []
      else
        var maxStart := if start >= sStart then start - sStart else 0;
        var minEnd := if Width(v) <= end - sStart then Width(v) else end - sStart;
        [Sub(v, maxStart, minEnd)] + SliceFrom(data[1..], sEnd, start, end)
  }

  lemma ConcatCons(v: View, tail: seq<View>)
    ensures Concat([v] + tail) == Text(v) + Concat(tail)
    ensures ConcatIds([v] + tail) == Ids(v) + ConcatIds(tail)
  {
    assert ([v] + tail)[1..] == tail;
  }

  /** `SliceFrom` yields the part `lo .. hi` of the text and identities of
      `data`, where `lo` and `hi` are `start` and `end` taken relative to
      `sStart` and clamped into `0 .. SumWidths(data)`. */
  lemma {:induction false} SliceFromText(data: seq<View>, sStart: nat, start: nat, end: nat, lo: nat, hi: nat)
    requires start <= end
    requires lo == Clamp(start - sStart, SumWidths(data)) && hi == Clamp(end - sStart, SumWidths(data))
    ensures lo <= hi <= SumWidths(data)
    ensures Concat(SliceFrom(data, sStart, start, end)) == Concat(data)[lo..hi]
    ensures ConcatIds(SliceFrom(data, sStart, start, end)) == ConcatIds(data)[lo..hi]
  {
    if data != [] {
      var w := Width(data[0]);
      var sEnd := sStart + w;
      var n' := SumWidths(data[1..]);
      var lo', hi' := Clamp(start - sEnd, n'), Clamp(end - sEnd, n');
      SliceFromText(data[1..], sEnd, start, end, lo', hi');
      if sEnd <= start {
        SkipStep(data, sStart, start, end, lo, hi, lo', hi');
      } else if end <= sEnd {
        if sStart < end {
          SliceFromPast(data[1..], sEnd, start, end);
          ClipLast(data, sStart, start, end, lo, hi);
        }
      } else {
        ClipAcross(data, sStart, start, end, lo, hi, hi');
      }
    }
  }

  /** A fragment that ends at or before `start` contributes nothing. */
  lemma SkipStep(data: seq<View>, sStart: nat, start: nat, end: nat, lo: nat, hi: nat, lo': nat, hi': nat)
    requires start <= end && data != [] && sStart + Width(data[0]) <= start
    requires lo == Clamp(start - sStart, SumWidths(data)) && hi == Clamp(end - sStart, SumWidths(data))
    requires lo' == Clamp(start - sStart - Width(data[0]), SumWidths(data[1..]))
    requires hi' == Clamp(end - sStart - Width(data[0]), SumWidths(data[1..]))
    requires lo' <= hi' <= SumWidths(data[1..])
    requires Concat(SliceFrom(data[1..], sStart + Width(data[0]), start, end)) == Concat(data[1..])[lo'..hi']
    requires ConcatIds(SliceFrom(data[1..], sStart + Width(data[0]), start, end)) == ConcatIds(data[1..])[lo'..hi']
    ensures Concat(SliceFrom(data, sStart, start, end)) == Concat(data)[lo..hi]
    ensures ConcatIds(SliceFrom(data, sStart, start, end)) == ConcatIds(data)[lo..hi]
  {
    var v, rest := data[0], data[1..];
    var w := Width(v);
    assert lo == w + lo' && hi == w + hi';
    PartAfter(Text(v), Concat(rest), lo', hi', lo, hi);
    PartAfter(Ids(v), ConcatIds(rest), lo', hi', lo, hi);
  }

  /** Once the fragments start at or after `end`, nothing more is taken. */
  lemma {:induction false} SliceFromPast(data: seq<View>, sStart: nat, start: nat, end: nat)
    requires start <= end <= sStart
    ensures SliceFrom(data, sStart, start, end) == []
  {
    if data != [] && sStart + Width(data[0]) <= start {
      SliceFromPast(data[1..], sStart + Width(data[0]), start, end);
    }
  }

  /** A fragment that overlaps `start .. end` and reaches past `end`: its
      clipped part is the whole answer. */
  lemma ClipLast(data: seq<View>, sStart: nat, start: nat, end: nat, lo: nat, hi: nat)
    requires start <= end && data != [] && sStart + Width(data[0]) > start && sStart < end
    requires end <= sStart + Width(data[0])
    requires lo == (if start >= sStart then start - sStart else 0) && hi == end - sStart
    requires SliceFrom(data[1..], sStart + Width(data[0]), start, end) == []
    ensures Concat(SliceFrom(data, sStart, start, end)) == Concat(data)[lo..hi]
    ensures ConcatIds(SliceFrom(data, sStart, start, end)) == ConcatIds(data)[lo..hi]
  {
    var v, rest := data[0], data[1..];
    var head := Sub(v, lo, hi);
    SubParts(v, lo, hi);
    ConcatCons(head, []);
    PartBefore(Text(v), Concat(rest), lo, hi);
    PartBefore(Ids(v), ConcatIds(rest), lo, hi);
  }

  /** A fragment that overlaps `start .. end` and ends inside it: its tail
      joins the prefix of the rest up to `end`. */
  lemma ClipAcross(data: seq<View>, sStart: nat, start: nat, end: nat, lo: nat, hi: nat, hi': nat)
    requires start <= end && data != [] && sStart + Width(data[0]) > start
    requires end > sStart + Width(data[0])
    requires lo == (if start >= sStart then start - sStart else 0)
    requires hi' <= SumWidths(data[1..]) && hi == Width(data[0]) + hi'
    requires Concat(SliceFrom(data[1..], sStart + Width(data[0]), start, end)) == Concat(data[1..])[0..hi']
    requires ConcatIds(SliceFrom(data[1..], sStart + Width(data[0]), start, end)) == ConcatIds(data[1..])[0..hi']
    ensures Concat(SliceFrom(data, sStart, start, end)) == Concat(data)[lo..hi]
    ensures ConcatIds(SliceFrom(data, sStart, start, end)) == ConcatIds(data)[lo..hi]
  {
    var v, rest := data[0], data[1..];
    var w := Width(v);
    var head, tail := Sub(v, lo, w), SliceFrom(rest, sStart + w, start, end);
    SubParts(v, lo, w);
    ConcatCons(head, tail);
    PartAcross(Text(v), Concat(rest), lo, w, hi', hi);
    PartAcross(Ids(v), ConcatIds(rest), lo, w, hi', hi);
  }

  lemma PartAfter<T>(x: seq<T>, y: seq<T>, a: nat, b: nat, a': nat, b': nat)
    requires a <= b <= |y| && a' == |x| + a && b' == |x| + b
    ensures (x + y)[a'..b'] == y[a..b]
  {
  }

  lemma PartBefore<T>(x: seq<T>, y: seq<T>, a: nat, b: nat)
    requires a <= b <= |x|
    ensures (x + y)[a..b] == x[a..b]
  {
  }

  lemma PartAcross<T>(x: seq<T>, y: seq<T>, a: nat, c: nat, b: nat, b': nat)
    requires a <= c == |x| && b <= |y| && b' == |x| + b
    ensures (x + y)[a..b'] == x[a..c] + y[0..b]
  {
  }

  lemma {:induction false} SliceFromSubViews(data: seq<View>, sStart: nat, start: nat, end: nat)
    requires start <= end
    ensures forall w :: w in SliceFrom(data, sStart, start, end) ==> exists v :: v in data && SubView(w, v)
  {
    if data != [] {
      SliceFromSubViews(data[1..], sStart + Width(data[0]), start, end);
      forall w | w in SliceFrom(data, sStart, start, end)
        ensures exists v :: v in data && SubView(w, v)
      {
        if w !in SliceFrom(data[1..], sStart + Width(data[0]), start, end) {
          assert SubView(w, data[0]);
        } else {
          var v :| v in data[1..] && SubView(w, v);
          assert v in data;
        }
      }
    }
  }

  /** `Rope::slice(start..end)`: the clamped part of the text, with the
      identities it had in this rope. */
  function SliceOf(r: Rope, start: nat, end: nat): (s: Rope)
    requires start <= end
    ensures var lo, hi := Min(start, Len(r)), Min(end, Len(r));
      && Len(s) == hi - lo
      && Flatten(s) == Flatten(r)[lo..hi]
      && Identities(s) == Identities(r)[lo..hi]
  {
    SliceFromText(r.data, 0, start, end, Min(start, Len(r)), Min(end, Len(r)));
    Rope(SliceFrom(r.data, 0, start, end))
  }

  /** Every fragment of a slice borrows from a fragment of the rope: slicing copies nothing. */
  lemma SliceBorrows(r: Rope, start: nat, end: nat)
    requires start <= end
    ensures forall w :: w in SliceOf(r, start, end).data ==> exists v :: v in r.data && SubView(w, v)
  {
    SliceFromSubViews(r.data, 0, start, end);
  }

  /** The loop of `Rope::slice`. */
  method Slice(r: Rope, start: nat, end: nat) returns (s: Rope)
    requires start <= end
    ensures s == SliceOf(r, start, end)
  {
    var data: seq<View> := [];
    var sStart: nat;
    var sEnd: nat := 0;
    var i := 0;
    while i < |r.data|
      invariant i <= |r.data|
      invariant SliceSoFar(r.data, start, end, data, i, sEnd)
    {
      var v := r.data[i];
      sStart := sEnd;
      sEnd := sStart + Width(v);
      SliceStep(r.data, start, end, data, i, sStart);
      if sEnd <= start {
        i := i + 1;
      } else if sStart >= end {
        break;
      } else {
        var maxStart := if start >= sStart then start - sStart else 0;
        var minEnd := if Width(v) <= end - sStart then Width(v) else end - sStart;
        data := data + [Sub(v, maxStart, minEnd)];
        i := i + 1;
      }
    }
    SliceEnds(r.data, start, end, data, i, sEnd);
    s := Rope(data);
  }

  /** The loop invariant of `Slice`: the fragments kept so far, followed by
      what the fragments from `i` on (starting at offset `sStart`) contribute,
      make the whole slice. */
  ghost predicate SliceSoFar(all: seq<View>, start: nat, end: nat, data: seq<View>, i: nat, sStart: nat)
    requires start <= end && i <= |all|
  {
    data + SliceFrom(all[i..], sStart, start, end) == SliceFrom(all, 0, start, end)
  }

  lemma SliceSkips(all: seq<View>, start: nat, end: nat, data: seq<View>, i: nat, sStart: nat)
    requires start <= end && i < |all| && sStart + Width(all[i]) <= start
    requires SliceSoFar(all, start, end, data, i, sStart)
    ensures SliceSoFar(all, start, end, data, i + 1, sStart + Width(all[i]))
  {
    assert all[i..][1..] == all[i + 1..];
  }

  lemma SliceStops(all: seq<View>, start: nat, end: nat, data: seq<View>, i: nat, sStart: nat)
    requires start <= end && i < |all| && sStart + Width(all[i]) > start && sStart >= end
    requires SliceSoFar(all, start, end, data, i, sStart)
    ensures data == SliceFrom(all, 0, start, end)
  {
    assert data + [] == data;
  }

  lemma SliceClips(all: seq<View>, start: nat, end: nat, data: seq<View>, i: nat, sStart: nat, maxStart: nat, minEnd: nat)
    requires start <= end && i < |all| && sStart + Width(all[i]) > start && sStart < end
    requires maxStart == (if start >= sStart then start - sStart else 0)
    requires minEnd == (if Width(all[i]) <= end - sStart then Width(all[i]) else end - sStart)
    requires SliceSoFar(all, start, end, data, i, sStart)
    ensures maxStart <= minEnd <= Width(all[i])
    ensures SliceSoFar(all, start, end, data + [Sub(all[i], maxStart, minEnd)], i + 1, sStart + Width(all[i]))
  {
    var w := Width(all[i]);
    var head, rest := [Sub(all[i], maxStart, minEnd)], SliceFrom(all[i + 1..], sStart + w, start, end);
    assert all[i..][1..] == all[i + 1..];
    assert data + (head + rest) == (data + head) + rest;
  }

  /** One turn of the loop of `Slice`, in each of its three branches. */
  lemma SliceStep(all: seq<View>, start: nat, end: nat, data: seq<View>, i: nat, sStart: nat)
    requires start <= end && i < |all|
    requires SliceSoFar(all, start, end, data, i, sStart)
    ensures var w := Width(all[i]);
      var maxStart := if start >= sStart then start - sStart else 0;
      var minEnd := if w <= end - sStart then w else end - sStart;
      && (sStart + w <= start ==> SliceSoFar(all, start, end, data, i + 1, sStart + w))
      && (sStart + w > start && sStart >= end ==> data == SliceFrom(all, 0, start, end))
      && (sStart + w > start && sStart < end ==>
            maxStart <= minEnd <= w &&
            SliceSoFar(all, start, end, data + [Sub(all[i], maxStart, minEnd)], i + 1, sStart + w))
  {
    var w := Width(all[i]);
    if sStart + w <= start {
      SliceSkips(all, start, end, data, i, sStart);
    } else if sStart >= end {
      SliceStops(all, start, end, data, i, sStart);
    } else {
      var maxStart := if start >= sStart then start - sStart else 0;
      var minEnd := if w <= end - sStart then w else end - sStart;
      SliceClips(all, start, end, data, i, sStart, maxStart, minEnd);
    }
  }

  lemma SliceEnds(all: seq<View>, start: nat, end: nat, data: seq<View>, i: nat, sStart: nat)
    requires start <= end && i <= |all|
    requires i == |all| ==> SliceSoFar(all, start, end, data, i, sStart)
    requires i < |all| ==> data == SliceFrom(all, 0, start, end)
    ensures Rope(data) == SliceOf(Rope(all), start, end)
  {
    if i == |all| {
      assert data + [] == data;
    }
  }

  /** Slicing the whole rope gives back its text and identities. */
  lemma SliceAll(r: Rope)
    ensures Flatten(SliceOf(r, 0, Len(r))) == Flatten(r)
    ensures Identities(SliceOf(r, 0, Len(r))) == Identities(r)
  {
  }

  /** Adjacent slices re-assemble into the slice that spans both. */
  lemma SliceSplit(r: Rope, i: nat, j: nat, k: nat)
    requires i <= j <= k
    ensures Flatten(Append(SliceOf(r, i, j), SliceOf(r, j, k))) == Flatten(SliceOf(r, i, k))
    ensures Identities(Append(SliceOf(r, i, j), SliceOf(r, j, k))) == Identities(SliceOf(r, i, k))
  {
    var n := Len(r);
    var a, b, c := Min(i, n), Min(j, n), Min(k, n);
    assert Flatten(r)[a..b] + Flatten(r)[b..c] == Flatten(r)[a..c];
    assert Identities(r)[a..b] + Identities(r)[b..c] == Identities(r)[a..c];
  }

  // ---------------------------------------------------------------------
  // Matches and substitution

  /** `ms` are the matches `find_iter` reports on a text of length `n`,
      from offset `cur` on: in order, non-overlapping, inside the text. */
  predicate OrderedFrom(ms: seq<Range>, cur: nat, n: nat) {
    if ms == [] then cur <= n
    else cur <= ms[0].start <= ms[0].end && OrderedFrom(ms[1..], ms[0].end, n)
  }

  lemma {:induction false} OrderedBound(ms: seq<Range>, cur: nat, n: nat)
    requires OrderedFrom(ms, cur, n)
    ensures cur <= n
    ensures ms != [] ==> ms[0].end <= n
  {
    if ms != [] {
      OrderedBound(ms[1..], ms[0].end, n);
    }
  }

  /** Reference meaning of a global replacement: the text from `cur` on, with
      every match replaced by `rt` and everything between matches kept. */
  function Substituted<T>(t: seq<T>, ms: seq<Range>, rt: seq<T>, cur: nat): seq<T>
    requires OrderedFrom(ms, cur, |t|)
  {
    OrderedBound(ms, cur, |t|);
    if ms == [] then t[cur..]
    else t[cur..ms[0].start] + rt + Substituted(t, ms[1..], rt, ms[0].end)
  }

  /** Without matches nothing is replaced. */
  lemma SubstitutedNothing<T>(t: seq<T>, rt: seq<T>)
    ensures Substituted(t, [], rt, 0) == t
  {
  }

  /** Every element of a substitution comes from the text or the replacement. */
  lemma {:induction false} SubstitutedFrom<T>(t: seq<T>, ms: seq<Range>, rt: seq<T>, cur: nat)
    requires OrderedFrom(ms, cur, |t|)
    ensures forall x :: x in Substituted(t, ms, rt, cur) ==> x in t || x in rt
  {
    OrderedBound(ms, cur, |t|);
    if ms == [] {
      assert forall x :: x in t[cur..] ==> x in t;
    } else {
      SubstitutedFrom(t, ms[1..], rt, ms[0].end);
      assert forall x :: x in t[cur..ms[0].start] ==> x in t;
    }
  }

  // ---------------------------------------------------------------------
  // re_replace and re_replaces

  /** `Rope::re_replace` given the first match `found` (`re_range`): the part
      before the match, then the replacement, then the part after it. */
  function ReplaceFirst(r: Rope, found: Option<Range>, repl: Rope): (res: Rope)
    requires found.Some? ==> found.value.start <= found.value.end <= Len(r)
    ensures found.None? ==> res == r
    ensures found.Some? ==>
      && Flatten(res) == Flatten(r)[..found.value.start] + Flatten(repl) + Flatten(r)[found.value.end..]
      && Identities(res) == Identities(r)[..found.value.start] + Identities(repl) + Identities(r)[found.value.end..]
  {
    match found
    case None => r
    case Some(range) =>
      var newRope := Append(Append(Append(New(), SliceOf(r, 0, range.start)), repl), SliceOf(r, range.end, Len(r)));
      PrefixSlice(Flatten(r), range.start);
      PrefixSlice(Identities(r), range.start);
      SuffixSlice(Flatten(r), range.end);
      SuffixSlice(Identities(r), range.end);
      newRope
  }

  lemma PrefixSlice<T>(t: seq<T>, i: nat)
    requires i <= |t|
    ensures t[0..i] == t[..i]
  {
  }

  lemma SuffixSlice<T>(t: seq<T>, i: nat)
    requires i <= |t|
    ensures t[i..|t|] == t[i..]
  {
  }

  /** The rope `re_replaces` builds from the matches `ms`, from the cursor
      `ind` on: the text up to each match, then the replacement, and after
      the last match the rest of the text if any is left. */
  function ReplaceFrom(r: Rope, ms: seq<Range>, repl: Rope, ind: nat): Rope
    requires OrderedFrom(ms, ind, Len(r))
  {
    if ms == [] then
      if ind < Len(r) then SliceOf(r, ind, Len(r)) else New()
    else
      Append(Append(SliceOf(r, ind, ms[0].start), repl), ReplaceFrom(r, ms[1..], repl, ms[0].end))
  }

  /** `re_replaces` replaces every match and keeps the text between them:
      its text and identities are the substitution of the rope's. */
  lemma {:induction false} ReplaceFromText(r: Rope, ms: seq<Range>, repl: Rope, ind: nat)
    requires OrderedFrom(ms, ind, Len(r))
    ensures Flatten(ReplaceFrom(r, ms, repl, ind)) == Substituted(Flatten(r), ms, Flatten(repl), ind)
  {
    OrderedBound(ms, ind, Len(r));
    if ms == [] {
      SuffixSlice(Flatten(r), ind);
    } else {
      ReplaceFromText(r, ms[1..], repl, ms[0].end);
    }
  }

  lemma {:induction false} ReplaceFromIds(r: Rope, ms: seq<Range>, repl: Rope, ind: nat)
    requires OrderedFrom(ms, ind, Len(r))
    ensures Identities(ReplaceFrom(r, ms, repl, ind)) == Substituted(Identities(r), ms, Identities(repl), ind)
  {
    OrderedBound(ms, ind, Len(r));
    if ms == [] {
      SuffixSlice(Identities(r), ind);
    } else {
      ReplaceFromIds(r, ms[1..], repl, ms[0].end);
    }
  }

  /** With no match, `re_replaces` keeps the text and identities. */
  lemma ReplaceNothing(r: Rope, repl: Rope)
    ensures Flatten(ReplaceFrom(r, [], repl, 0)) == Flatten(r)
    ensures Identities(ReplaceFrom(r, [], repl, 0)) == Identities(r)
  {
    ReplaceFromText(r, [], repl, 0);
    ReplaceFromIds(r, [], repl, 0);
  }

  /** Every identity in the result of `re_replaces` is one of the rope's or
      one of the replacement's: none is made up. */
  lemma ReplaceKeepsIdentities(r: Rope, ms: seq<Range>, repl: Rope)
    requires OrderedFrom(ms, 0, Len(r))
    ensures forall a :: a in Identities(ReplaceFrom(r, ms, repl, 0)) ==>
      a in Identities(r) || a in Identities(repl)
  {
    ReplaceFromIds(r, ms, repl, 0);
    SubstitutedFrom(Identities(r), ms, Identities(repl), 0);
  }

  /** `re_replace` on a match is `re_replaces` on that one match. */
  lemma ReplaceFirstIsReplaceOne(r: Rope, m: Range, repl: Rope)
    requires m.start <= m.end <= Len(r)
    ensures OrderedFrom([m], 0, Len(r))
    ensures Flatten(ReplaceFirst(r, Some(m), repl)) == Flatten(ReplaceFrom(r, [m], repl, 0))
    ensures Identities(ReplaceFirst(r, Some(m), repl)) == Identities(ReplaceFrom(r, [m], repl, 0))
  {
    assert [m][1..] == [];
    ReplaceFromText(r, [m], repl, 0);
    ReplaceFromIds(r, [m], repl, 0);
    PrefixSlice(Flatten(r), m.start);
    PrefixSlice(Identities(r), m.start);
  }

  /** The loop of `Rope::re_replaces`, with `ms` standing for `re_ranges`. */
  method ReplaceAll(r: Rope, ms: seq<Range>, repl: Rope) returns (res: Rope)
    requires OrderedFrom(ms, 0, Len(r))
    ensures res == ReplaceFrom(r, ms, repl, 0)
  {
    var newRope := New();
    var ind: nat := 0;
    for k := 0 to |ms|
      invariant OrderedFrom(ms[k..], ind, Len(r))
      invariant ReplacedSoFar(r, ms, repl, newRope, k, ind)
    {
      var range := ms[k];
      ReplaceSteps(r, ms, repl, newRope, k, ind);
      var before := Slice(r, ind, range.start);
      newRope := Append(newRope, before);
      newRope := Append(newRope, repl);
      ind := range.end;
    }
    ReplaceEnds(r, ms, repl, newRope, ind);
    if ind < Len(r) {
      var rest := Slice(r, ind, Len(r));
      newRope := Append(newRope, rest);
    }
    res := newRope;
  }

  /** The loop invariant of `ReplaceAll`: the rope built so far, followed by
      what the remaining matches produce, is the whole result. */
  ghost predicate ReplacedSoFar(r: Rope, ms: seq<Range>, repl: Rope, done: Rope, k: nat, ind: nat)
    requires OrderedFrom(ms, 0, Len(r)) && k <= |ms| && OrderedFrom(ms[k..], ind, Len(r))
  {
    done.data + ReplaceFrom(r, ms[k..], repl, ind).data == ReplaceFrom(r, ms, repl, 0).data
  }

  lemma ReplaceSteps(r: Rope, ms: seq<Range>, repl: Rope, done: Rope, k: nat, ind: nat)
    requires OrderedFrom(ms, 0, Len(r)) && k < |ms| && OrderedFrom(ms[k..], ind, Len(r))
    requires ReplacedSoFar(r, ms, repl, done, k, ind)
    ensures ind <= ms[k].start <= ms[k].end
    ensures OrderedFrom(ms[k + 1..], ms[k].end, Len(r))
    ensures ReplacedSoFar(r, ms, repl, Append(Append(done, SliceOf(r, ind, ms[k].start)), repl), k + 1, ms[k].end)
  {
    var m := ms[k..];
    assert m[0] == ms[k] && m[1..] == ms[k + 1..];
    ReplaceFromUnfold(r, m, repl, ind);
    AppendAssoc3(done.data, SliceOf(r, ind, ms[k].start).data, repl.data, ReplaceFrom(r, ms[k + 1..], repl, ms[k].end).data);
  }

  lemma ReplaceFromUnfold(r: Rope, ms: seq<Range>, repl: Rope, ind: nat)
    requires ms != [] && OrderedFrom(ms, ind, Len(r))
    ensures ReplaceFrom(r, ms, repl, ind).data ==
      (SliceOf(r, ind, ms[0].start).data + repl.data) + ReplaceFrom(r, ms[1..], repl, ms[0].end).data
  {
  }

  lemma AppendAssoc3<T>(w: seq<T>, x: seq<T>, y: seq<T>, z: seq<T>)
    ensures w + ((x + y) + z) == ((w + x) + y) + z
  {
  }

  lemma ReplaceEnds(r: Rope, ms: seq<Range>, repl: Rope, done: Rope, ind: nat)
    requires OrderedFrom(ms, 0, Len(r)) && OrderedFrom(ms[|ms|..], ind, Len(r))
    requires ReplacedSoFar(r, ms, repl, done, |ms|, ind)
    ensures ind <= Len(r)
    ensures ind < Len(r) ==> Append(done, SliceOf(r, ind, Len(r))) == ReplaceFrom(r, ms, repl, 0)
    ensures ind >= Len(r) ==> done == ReplaceFrom(r, ms, repl, 0)
  {
    assert ms[|ms|..] == [];
    assert done.data + [] == done.data;
  }

  /** Replacing the one dot of `ab.cd` by `??` gives `ab??cd`, whatever
      fragments the two ropes are made of. */
  lemma ReplaceFirstDot(r: Rope, q: Rope)
    requires Flatten(r) == "ab.cd" && Flatten(q) == "??"
    ensures Len(r) == 5
    ensures Flatten(ReplaceFirst(r, Some(Range(2, 3)), q)) == "ab??cd"
  {
    var res := ReplaceFirst(r, Some(Range(2, 3)), q);
    DotSpliced(Flatten(r), Flatten(res));
  }

  lemma DotSpliced(t: seq<char>, u: seq<char>)
    requires t == "ab.cd" && u == t[..2] + "??" + t[3..]
    ensures u == "ab??cd"
  {
    assert t[..2] == "ab" && t[3..] == "cd";
  }

  /** Replacing both dots of `a.b.c` by `??` gives `a??b??c`. */
  lemma ReplaceAllDots(r: Rope, q: Rope)
    requires Flatten(r) == "a.b.c" && Flatten(q) == "??"
    ensures OrderedFrom([Range(1, 2), Range(3, 4)], 0, Len(r))
    ensures Flatten(ReplaceFrom(r, [Range(1, 2), Range(3, 4)], q, 0)) == "a??b??c"
  {
    var ms := [Range(1, 2), Range(3, 4)];
    assert ms[1..][1..] == [];
    assert OrderedFrom(ms, 0, Len(r));
    ReplaceFromText(r, ms, q, 0);
    DotsSubstituted(Flatten(r));
  }

  lemma DotsSubstituted(t: seq<char>)
    requires t == "a.b.c"
    ensures OrderedFrom([Range(1, 2), Range(3, 4)], 0, |t|)
    ensures Substituted(t, [Range(1, 2), Range(3, 4)], "??", 0) == "a??b??c"
  {
    var ms := [Range(1, 2), Range(3, 4)];
    assert ms[1..] == [Range(3, 4)] && ms[1..][1..] == [];
    assert Substituted(t, ms[1..][1..], "??", 4) == "c";
    assert Substituted(t, ms[1..], "??", 2) == "b??c";
  }

  // ---------------------------------------------------------------------
  // re_slice and re_slices

  /** `Rope::re_slice` given the first match `found`: the matched part. */
  function ReSlice(r: Rope, found: Option<Range>): (res: Option<Rope>)
    requires found.Some? ==> found.value.start <= found.value.end <= Len(r)
    ensures res.Some? <==> found.Some?
    ensures found.Some? ==>
      && Flatten(res.value) == Flatten(r)[found.value.start..found.value.end]
      && Identities(res.value) == Identities(r)[found.value.start..found.value.end]
  {
    match found
    case None => None
    case Some(range) => Some(SliceOf(r, range.start, range.end))
  }

  /** Every range lies inside a text of length `n`. */
  predicate InText(ms: seq<Range>, n: nat) {
    forall k :: 0 <= k < |ms| ==> ms[k].start <= ms[k].end <= n
  }

  /** `Rope::re_slices` given all matches `ms`: one matched part per match. */
  function ReSlices(r: Rope, ms: seq<Range>): (res: seq<Rope>)
    requires InText(ms, Len(r))
    ensures |res| == |ms|
    ensures forall k :: 0 <= k < |ms| ==>
      && Flatten(res[k]) == Flatten(r)[ms[k].start..ms[k].end]
      && Identities(res[k]) == Identities(r)[ms[k].start..ms[k].end]
  {
    seq(|ms|, k requires 0 <= k < |ms| => SliceOf(r, ms[k].start, ms[k].end))
  }

  // ---------------------------------------------------------------------
  // indent

  /** The matches of the pattern `\n` in `t` at or after index `k`. */
  function NewlinesFrom(t: seq<char>, k: nat): (ms: seq<Range>)
    requires k <= |t|
    ensures OrderedFrom(ms, k, |t|)
    ensures forall m :: m in ms ==> m.end == m.start + 1 && m.end <= |t| && t[m.start] == '\n'
    ensures forall i :: k <= i < |t| && t[i] == '\n' ==> Range(i, i + 1) in ms
    decreases |t| - k
  {
    if k == |t| then []
    else
      var rest := NewlinesFrom(t, k + 1);
      if t[k] == '\n' then
        assert ([Range(k, k + 1)] + rest)[1..] == rest;
        [Range(k, k + 1)] + rest
      else rest
  }

  /** Reference meaning of indentation: `t` with `ind` inserted after every newline. */
  function Reindented(t: seq<char>, ind: seq<char>): seq<char> {
    if t == [] then [] else [t[0]] + (if t[0] == '\n' then ind else []) + Reindented(t[1..], ind)
  }

  /** Replacing every newline by a newline followed by `ind` is inserting
      `ind` after every newline. */
  lemma {:induction false} NewlinesReindent(t: seq<char>, k: nat, ind: seq<char>)
    requires k <= |t|
    ensures Substituted(t, NewlinesFrom(t, k), ['\n'] + ind, k) == Reindented(t[k..], ind)
    decreases |t| - k
  {
    if k < |t| {
      NewlinesReindent(t, k + 1, ind);
      assert t[k..][1..] == t[k + 1..];
      var ms := NewlinesFrom(t, k + 1);
      if t[k] == '\n' {
        assert ([Range(k, k + 1)] + ms)[1..] == ms;
        assert t[k..k] + (['\n'] + ind) == [t[k]] + ind;
      } else {
        SubstitutedShift(t, ms, ['\n'] + ind, k);
        assert [t[k]] + [] == [t[k]];
      }
    }
  }

  /** Starting one element earlier, before the first match, adds that element in front. */
  lemma SubstitutedShift<T>(t: seq<T>, ms: seq<Range>, rt: seq<T>, k: nat)
    requires k < |t| && OrderedFrom(ms, k + 1, |t|)
    ensures OrderedFrom(ms, k, |t|)
    ensures Substituted(t, ms, rt, k) == [t[k]] + Substituted(t, ms, rt, k + 1)
  {
    OrderedBound(ms, k + 1, |t|);
    if ms == [] {
      assert t[k..] == [t[k]] + t[k + 1..];
    } else {
      var s, rest := ms[0].start, Substituted(t, ms[1..], rt, ms[0].end);
      assert t[k..s] == [t[k]] + t[k + 1..s];
      assert (([t[k]] + t[k + 1..s]) + rt) + rest == [t[k]] + ((t[k + 1..s] + rt) + rest);
    }
  }

  /** `Rope::indent`: the indent, then the rope with every newline replaced by
      the literal `nl` (a `"\n"` string) followed by the indent. */
  method Indent(r: Rope, indent: Rope, nl: View) returns (ret: Rope)
    requires Text(nl) == "\n"
    ensures Flatten(ret) == Flatten(indent) + Reindented(Flatten(r), Flatten(indent))
    ensures Identities(ret) ==
      Identities(indent) + Substituted(Identities(r), NewlinesFrom(Flatten(r), 0), Ids(nl) + Identities(indent), 0)
  {
    ret := indent;
    var replacement := FromStr(nl);
    replacement := Append(replacement, indent);
    var ms := NewlinesFrom(Flatten(r), 0);
    var replaced := ReplaceAll(r, ms, replacement);
    ReplaceFromText(r, ms, replacement, 0);
    ReplaceFromIds(r, ms, replacement, 0);
    NewlinesReindent(Flatten(r), 0, Flatten(indent));
    ret := Append(ret, replaced);
  }

  /** Indenting the two-line text `x\ny` by two spaces. */
  method IndentTwoLines() returns (out: Rope)
    ensures Flatten(out) == "  x\n  y"
  {
    var input := FromStr(Whole(Buffer(0, "x\ny")));
    var indent := FromStr(Whole(Buffer(1, "  ")));
    out := Indent(input, indent, Whole(Buffer(2, "\n")));
  }

  // ---------------------------------------------------------------------
  // addrs

  /** `Rope::addrs`: walks every fragment, emitting the running address of
      each character, starting at the fragment's own address. */
  method Addrs(r: Rope) returns (addresses: seq<Addr>)
    ensures addresses == Identities(r)
  {
    addresses := [];
    for i := 0 to |r.data|
      invariant addresses == ConcatIds(r.data[..i])
    {
      var v := r.data[i];
      var addr := Addr(v.buf.id, v.lo);
      IdsIncrease(v);
      for j := 0 to Width(v)
        invariant addresses == ConcatIds(r.data[..i]) + Ids(v)[..j]
        invariant addr == Addr(v.buf.id, v.lo + j)
      {
        addresses := addresses + [addr];
        addr := Addr(addr.buf, addr.pos + 1);
        assert Ids(v)[..j + 1] == Ids(v)[..j] + [Ids(v)[j]];
      }
      assert r.data[..i + 1] == r.data[..i] + [v];
      ConcatAppend(r.data[..i], [v]);
      assert ConcatIds([v]) == Ids(v) + ConcatIds([]);
      assert Ids(v)[..Width(v)] == Ids(v);
    }
    assert r.data[..|r.data|] == r.data;
  }
}

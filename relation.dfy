/** The provenance relation (`src/relation.rs`): which character identities
    of an input a transformation's output characters came from, indexed both
    ways. */
module Relations {
  import opened Options
  import opened Views

  /** One index of the relation (`BTreeMap<usize, BTreeSet<usize>>`). */
  type Index = map<Addr, set<Addr>>

  /** The pairs an index records. */
  ghost function Edges(m: Index): set<(Addr, Addr)> {
    set a, b | a in m && b in m[a] :: (a, b)
  }

  lemma EdgesMember(m: Index, a: Addr, b: Addr)
    ensures (a, b) in Edges(m) <==> a in m && b in m[a]
  {
    if a in m && b in m[a] {
      assert (a, b) in Edges(m);
    }
  }

  /** Every pair `(a, b)` with `a` in `srcs` and `b` in `dsts`. */
  ghost function Product(srcs: set<Addr>, dsts: set<Addr>): set<(Addr, Addr)> {
    set a, b | a in srcs && b in dsts :: (a, b)
  }

  /** The identities listed in `s`. */
  function Elems(s: seq<Addr>): (e: set<Addr>)
    ensures forall x :: x in e <==> x in s
  {
    set x | x in s
  }

  /** `index.entry(a).or_default().insert(b)`. */
  function Insert(m: Index, a: Addr, b: Addr): (m': Index)
    ensures a in m' && b in m'[a]
    ensures forall k :: k != a ==> (k in m' <==> k in m)
    ensures forall k :: k != a && k in m ==> m'[k] == m[k]
  {
    m[a := (if a in m then m[a] else {}) + {b}]
  }

  /** Reference meaning of the bulk adders: every identity of `srcs` gains
      every identity of `dsts`; an entry is created only when something is
      inserted into it. */
  function Extend(m: Index, srcs: set<Addr>, dsts: set<Addr>): Index {
    map k | k in m.Keys + (if dsts == {} then {} else srcs) ::
      (if k in m then m[k] else {}) + (if k in srcs then dsts else {})
  }

  /** The two indexes hold the same pairs, each from its own side. */
  ghost predicate Mirror(rel: Index, inv: Index) {
    && (forall a, b :: a in rel && b in rel[a] ==> b in inv && a in inv[b])
    && (forall a, b :: b in inv && a in inv[b] ==> a in rel && b in rel[a])
  }

  /** Entries are only created by an insertion, so none is empty. */
  ghost predicate NoEmptyEntries(m: Index) {
    forall a :: a in m ==> m[a] != {}
  }

  /** One insertion is the bulk extension by one pair. */
  lemma InsertIsExtend(m: Index, a: Addr, b: Addr)
    ensures Insert(m, a, b) == Extend(m, {a}, {b})
  {
    var l, r := Insert(m, a, b), Extend(m, {a}, {b});
    assert l.Keys == r.Keys;
    forall k | k in l
      ensures l[k] == r[k]
    {
    }
  }

  /** The bulk extension adds exactly the product of the two sides. */
  lemma ExtendEdges(m: Index, srcs: set<Addr>, dsts: set<Addr>)
    ensures Edges(Extend(m, srcs, dsts)) == Edges(m) + Product(srcs, dsts)
  {
    var e := Extend(m, srcs, dsts);
    forall p | p in Edges(e)
      ensures p in Edges(m) + Product(srcs, dsts)
    {
      EdgesMember(e, p.0, p.1);
      EdgesMember(m, p.0, p.1);
    }
    forall p | p in Edges(m) + Product(srcs, dsts)
      ensures p in Edges(e)
    {
      EdgesMember(e, p.0, p.1);
      EdgesMember(m, p.0, p.1);
    }
  }

  /** Extending with nothing changes nothing. */
  lemma ExtendNothing(m: Index, srcs: set<Addr>, dsts: set<Addr>)
    requires srcs == {} || dsts == {}
    ensures Extend(m, srcs, dsts) == m
  {
    var e := Extend(m, srcs, dsts);
    assert e.Keys == m.Keys;
    forall k | k in e
      ensures e[k] == m[k]
    {
    }
  }

  /** Two extensions of the same identities accumulate their targets. */
  lemma ExtendSameSources(m: Index, srcs: set<Addr>, d1: set<Addr>, d2: set<Addr>)
    ensures Extend(Extend(m, srcs, d1), srcs, d2) == Extend(m, srcs, d1 + d2)
  {
    var l, r := Extend(Extend(m, srcs, d1), srcs, d2), Extend(m, srcs, d1 + d2);
    assert l.Keys == r.Keys;
    forall k | k in l
      ensures l[k] == r[k]
    {
    }
  }

  /** Two extensions towards the same identities accumulate their sources. */
  lemma ExtendSameTargets(m: Index, s1: set<Addr>, s2: set<Addr>, dsts: set<Addr>)
    ensures Extend(Extend(m, s1, dsts), s2, dsts) == Extend(m, s1 + s2, dsts)
  {
    var l, r := Extend(Extend(m, s1, dsts), s2, dsts), Extend(m, s1 + s2, dsts);
    assert l.Keys == r.Keys;
    forall k | k in l
      ensures l[k] == r[k]
    {
    }
  }

  /** Extending the forward index by `srcs × dsts` and the inverse index by
      `dsts × srcs` keeps them mirrors of each other, and creates no empty entry. */
  lemma ExtendKeepsMirror(rel: Index, inv: Index, srcs: set<Addr>, dsts: set<Addr>)
    ensures Mirror(rel, inv) ==> Mirror(Extend(rel, srcs, dsts), Extend(inv, dsts, srcs))
    ensures NoEmptyEntries(rel) ==> NoEmptyEntries(Extend(rel, srcs, dsts))
  {
  }

  /** One more `add` in a loop over the targets `ds` of `a`. */
  lemma InsertNextTarget(m: Index, a: Addr, ds: seq<Addr>, j: nat)
    requires j < |ds|
    ensures Insert(Extend(m, {a}, Elems(ds[..j])), a, ds[j]) == Extend(m, {a}, Elems(ds[..j + 1]))
  {
    InsertIsExtend(Extend(m, {a}, Elems(ds[..j])), a, ds[j]);
    ExtendSameSources(m, {a}, Elems(ds[..j]), {ds[j]});
    assert ds[..j + 1] == ds[..j] + [ds[j]];
    assert Elems(ds[..j + 1]) == Elems(ds[..j]) + {ds[j]};
  }

  /** One more `add` in a loop over the sources `ss` of `b`. */
  lemma InsertNextSource(m: Index, ss: seq<Addr>, j: nat, b: Addr)
    requires j < |ss|
    ensures Insert(Extend(m, Elems(ss[..j]), {b}), ss[j], b) == Extend(m, Elems(ss[..j + 1]), {b})
  {
    InsertIsExtend(Extend(m, Elems(ss[..j]), {b}), ss[j], b);
    ExtendSameTargets(m, Elems(ss[..j]), {ss[j]}, {b});
    assert ss[..j + 1] == ss[..j] + [ss[j]];
  }

  /** One more source done in the outer loop of `add_n_n`. */
  lemma ExtendNextSource(m: Index, ss: seq<Addr>, i: nat, dsts: set<Addr>)
    requires i < |ss|
    ensures Extend(Extend(m, Elems(ss[..i]), dsts), {ss[i]}, dsts) == Extend(m, Elems(ss[..i + 1]), dsts)
  {
    ExtendSameTargets(m, Elems(ss[..i]), {ss[i]}, dsts);
    assert ss[..i + 1] == ss[..i] + [ss[i]];
  }

  /** One more target done in the outer loop of `add_n_n`, seen from the inverse index. */
  lemma ExtendNextTarget(m: Index, srcs: set<Addr>, ds: seq<Addr>, i: nat)
    requires i < |ds|
    ensures Extend(Extend(m, srcs, Elems(ds[..i])), srcs, {ds[i]}) == Extend(m, srcs, Elems(ds[..i + 1]))
  {
    ExtendSameSources(m, srcs, Elems(ds[..i]), {ds[i]});
    assert ds[..i + 1] == ds[..i] + [ds[i]];
    assert Elems(ds[..i + 1]) == Elems(ds[..i]) + {ds[i]};
  }

  /** In mirrored indexes, the inverse index lists exactly the sources of each target. */
  lemma MirrorInverse(rel: Index, inv: Index)
    ensures Mirror(rel, inv) ==> forall a, b :: (a, b) in Edges(rel) <==> b in inv && a in inv[b]
  {
    forall a, b
      ensures (a, b) in Edges(rel) <==> a in rel && b in rel[a]
    {
      EdgesMember(rel, a, b);
    }
  }

  /** Extending never removes an entry nor an identity from one. */
  lemma ExtendKeepsEntries(m: Index, srcs: set<Addr>, dsts: set<Addr>)
    ensures forall k :: k in m ==> k in Extend(m, srcs, dsts) && m[k] <= Extend(m, srcs, dsts)[k]
  {
  }

  /** `add_1_n(a, bs)` is `add_n_n([a], bs)`, and `add_n_1(as, b)` is `add_n_n(as, [b])`. */
  lemma SingleSideIsProduct(m: Index, a: Addr, bs: seq<Addr>)
    ensures Extend(m, {a}, Elems(bs)) == Extend(m, Elems([a]), Elems(bs))
    ensures Extend(m, Elems(bs), {a}) == Extend(m, Elems(bs), Elems([a]))
  {
    assert Elems([a]) == {a};
  }

  /** Adding a pair that is already there changes nothing: the values are sets. */
  lemma InsertIdempotent(m: Index, a: Addr, b: Addr)
    requires a in m && b in m[a]
    ensures Insert(m, a, b) == m
  {
    assert m[a] + {b} == m[a];
  }

  /** Without empty entries, an index is determined by the pairs it holds. */
  lemma EdgesDetermine(m1: Index, m2: Index)
    requires NoEmptyEntries(m1) && NoEmptyEntries(m2) && Edges(m1) == Edges(m2)
    ensures m1 == m2
  {
    forall k | k in m1
      ensures k in m2 && m1[k] == m2[k]
    {
      var b :| b in m1[k];
      EdgesMember(m1, k, b);
      EdgesMember(m2, k, b);
      forall c ensures c in m1[k] <==> c in m2[k] {
        EdgesMember(m1, k, c);
        EdgesMember(m2, k, c);
      }
    }
    forall k | k in m2
      ensures k in m1
    {
      var b :| b in m2[k];
      EdgesMember(m1, k, b);
      EdgesMember(m2, k, b);
    }
  }

  /** `str_addrs`: the address of every character of `s`, found by walking
      `s` from its own address. */
  method StrAddrs(s: View) returns (addrs: seq<Addr>)
    ensures addrs == Ids(s)
    ensures |addrs| == Width(s) && Increasing(addrs)
  {
    addrs := [];
    var addr := Addr(s.buf.id, s.lo);
    IdsIncrease(s);
    for j := 0 to Width(s)
      invariant addrs == Ids(s)[..j]
      invariant addr == Addr(s.buf.id, s.lo + j)
    {
      addrs := addrs + [addr];
      addr := Addr(addr.buf, addr.pos + 1);
    }
  }

  /** `Relation`: the forward index `rel` (input identity to output
      identities) and the inverse index `inv`. */
  class Relation {
    var rel: Index
    var inv: Index

    /** `b ∈ rel[a] ⇔ a ∈ inv[b]`, and no entry is empty. */
    ghost predicate Valid()
      reads this
    {
      Mirror(rel, inv) && NoEmptyEntries(rel) && NoEmptyEntries(inv)
    }

    /** `Relation::default()`. */
    constructor ()
      ensures Valid() && rel == map[] && inv == map[]
    {
      rel, inv := map[], map[];
    }

    /** `Relation::add`: records `a → b` in `rel` and `b → a` in `inv`. */
    method Add(a: Addr, b: Addr)
      modifies this
      ensures rel == Insert(old(rel), a, b) && inv == Insert(old(inv), b, a)
      ensures old(Valid()) ==> Valid()
    {
      InsertIsExtend(rel, a, b);
      InsertIsExtend(inv, b, a);
      ExtendKeepsMirror(rel, inv, {a}, {b});
      ExtendKeepsMirror(inv, rel, {b}, {a});
      rel := Insert(rel, a, b);
      inv := Insert(inv, b, a);
    }

    /** `Relation::add_1_n`: one `add` per target. */
    method AddOneToMany(a: Addr, bs: seq<Addr>)
      modifies this
      ensures rel == Extend(old(rel), {a}, Elems(bs)) && inv == Extend(old(inv), Elems(bs), {a})
      ensures old(Valid()) ==> Valid()
    {
      ExtendNothing(rel, {a}, {});
      ExtendNothing(inv, {}, {a});
      for j := 0 to |bs|
        invariant rel == Extend(old(rel), {a}, Elems(bs[..j]))
        invariant inv == Extend(old(inv), Elems(bs[..j]), {a})
        invariant old(Valid()) ==> Valid()
      {
        InsertNextTarget(old(rel), a, bs, j);
        InsertNextSource(old(inv), bs, j, a);
        Add(a, bs[j]);
      }
      assert bs[..|bs|] == bs;
    }

    /** `Relation::add_n_1`: one `add` per source. */
    method AddManyToOne(srcs: seq<Addr>, b: Addr)
      modifies this
      ensures rel == Extend(old(rel), Elems(srcs), {b}) && inv == Extend(old(inv), {b}, Elems(srcs))
      ensures old(Valid()) ==> Valid()
    {
      ExtendNothing(rel, {}, {b});
      ExtendNothing(inv, {b}, {});
      for i := 0 to |srcs|
        invariant rel == Extend(old(rel), Elems(srcs[..i]), {b})
        invariant inv == Extend(old(inv), {b}, Elems(srcs[..i]))
        invariant old(Valid()) ==> Valid()
      {
        InsertNextSource(old(rel), srcs, i, b);
        InsertNextTarget(old(inv), b, srcs, i);
        Add(srcs[i], b);
      }
      assert srcs[..|srcs|] == srcs;
    }

    /** `Relation::add_n_n`: one `add` per pair of the product. */
    method AddManyToMany(srcs: seq<Addr>, dsts: seq<Addr>)
      modifies this
      ensures rel == Extend(old(rel), Elems(srcs), Elems(dsts))
      ensures inv == Extend(old(inv), Elems(dsts), Elems(srcs))
      ensures old(Valid()) ==> Valid()
    {
      ExtendNothing(rel, {}, Elems(dsts));
      ExtendNothing(inv, Elems(dsts), {});
      for i := 0 to |srcs|
        invariant rel == Extend(old(rel), Elems(srcs[..i]), Elems(dsts))
        invariant inv == Extend(old(inv), Elems(dsts), Elems(srcs[..i]))
        invariant old(Valid()) ==> Valid()
      {
        var a := srcs[i];
        ghost var rel0, inv0 := rel, inv;
        ExtendNothing(rel0, {a}, {});
        ExtendNothing(inv0, {}, {a});
        for j := 0 to |dsts|
          invariant rel == Extend(rel0, {a}, Elems(dsts[..j]))
          invariant inv == Extend(inv0, Elems(dsts[..j]), {a})
          invariant old(Valid()) ==> Valid()
        {
          InsertNextTarget(rel0, a, dsts, j);
          InsertNextSource(inv0, dsts, j, a);
          Add(a, dsts[j]);
        }
        assert dsts[..|dsts|] == dsts;
        ExtendNextSource(old(rel), srcs, i, Elems(dsts));
        ExtendNextTarget(old(inv), Elems(dsts), srcs, i);
      }
      assert srcs[..|srcs|] == srcs;
    }

    /** `Relation::add_str_str`: relates every character of `a` to every
        character of `b`. */
    method AddStrStr(a: View, b: View)
      modifies this
      ensures rel == Extend(old(rel), Elems(Ids(a)), Elems(Ids(b)))
      ensures inv == Extend(old(inv), Elems(Ids(b)), Elems(Ids(a)))
      ensures old(Valid()) ==> Valid()
    {
      var srcs := StrAddrs(a);
      var dsts := StrAddrs(b);
      AddManyToMany(srcs, dsts);
    }

    /** `Relation::rel`: the identities `a` was related to, if any. */
    function Rel(a: Addr): (r: Option<set<Addr>>)
      reads this
      ensures r.Some? <==> a in rel
      ensures r.Some? ==> forall b :: b in r.value <==> (a, b) in Edges(rel)
      ensures Valid() ==> (r.None? <==> forall b :: (a, b) !in Edges(rel))
    {
      if a in rel then Some(rel[a]) else None
    }

    /** `Relation::inv`: the identities related to `b`, if any. */
    function Inv(b: Addr): (r: Option<set<Addr>>)
      reads this
      ensures r.Some? <==> b in inv
      ensures Valid() ==> (r.None? <==> forall a :: (a, b) !in Edges(rel))
      ensures Valid() && r.Some? ==> forall a :: a in r.value <==> (a, b) in Edges(rel)
    {
      MirrorInverse(rel, inv);
      if b in inv then Some(inv[b]) else None
    }

    /** `Relation::track`: applies `f` to `s`, and relates every character of
        `s` to every character of the result.  The result is a new string,
        held in fresh storage named `outId`, so no character of the result
        shares an identity with a character of `s`. */
    method Track(f: seq<char> -> seq<char>, s: View, outId: nat) returns (output: Buffer)
      requires outId != s.buf.id
      modifies this
      ensures output == Buffer(outId, f(Text(s)))
      ensures rel == Extend(old(rel), Elems(Ids(s)), Elems(BufferIds(output)))
      ensures inv == Extend(old(inv), Elems(BufferIds(output)), Elems(Ids(s)))
      ensures old(Valid()) ==> Valid()
      ensures forall x :: x in Ids(s) ==> x !in BufferIds(output)
    {
      output := Buffer(outId, f(Text(s)));
      AddStrStr(s, Whole(output));
      IdsIncrease(s);
      IdsIncrease(Whole(output));
    }
  }
}

/** Entries proposed under keys of their own: when they can all be taken into
    one map, and what that map is. */
module Keyed {
  datatype Proposal<+K, +V> = Proposal(key: K, value: V)

  predicate Injective<S, K(==), V>(ps: map<S, Proposal<K, V>>) {
    forall a, b | a in ps && b in ps :: ps[a].key == ps[b].key ==> a == b
  }

  function KeysOf<S, K(==), V>(ps: map<S, Proposal<K, V>>): set<K> {
    set a | a in ps :: ps[a].key
  }

  /** No two proposals share a key and none takes a key already used. */
  predicate Adoptable<S, K(==), V>(base: map<K, V>, ps: map<S, Proposal<K, V>>) {
    Injective(ps) && forall a | a in ps :: ps[a].key !in base
  }

  ghost function SourceOf<S, K, V>(ps: map<S, Proposal<K, V>>, k: K): (s: S)
    requires k in KeysOf(ps)
    ensures s in ps && ps[s].key == k
  {
    var s :| s in ps && ps[s].key == k; s
  }

  ghost function Adopted<S, K, V>(ps: map<S, Proposal<K, V>>): map<K, V> {
    map k | k in KeysOf(ps) :: ps[SourceOf(ps, k)].value
  }

  lemma NothingAdopted<S, K, V>(base: map<K, V>, ps: map<S, Proposal<K, V>>)
    requires ps == map[]
    ensures Adoptable(base, ps) && base + Adopted(ps) == base && KeysOf(ps) == {}
  {
    assert Adopted(ps) == map[];
  }

  lemma SourceIsOnly<S, K, V>(ps: map<S, Proposal<K, V>>, s: S)
    requires Injective(ps) && s in ps
    ensures ps[s].key in KeysOf(ps) && SourceOf(ps, ps[s].key) == s
  {
    assert ps[s].key in KeysOf(ps);
  }

  lemma KeysGrow<S, K, V>(ps: map<S, Proposal<K, V>>, s: S, p: Proposal<K, V>, k: K)
    requires s !in ps
    ensures k in KeysOf(ps[s := p]) <==> k == p.key || k in KeysOf(ps)
  {
    var more := ps[s := p];
    assert more[s] == p;
    if k in KeysOf(ps) {
      var a := SourceOf(ps, k);
      assert more[a] == ps[a];
    }
  }

  lemma AdoptedAt<S, K, V>(ps: map<S, Proposal<K, V>>, s: S, p: Proposal<K, V>, k: K)
    requires Injective(ps[s := p]) && Injective(ps) && s !in ps && k in KeysOf(ps[s := p])
             && (k == p.key || k in KeysOf(ps))
    ensures Adopted(ps[s := p])[k] == if k == p.key then p.value else Adopted(ps)[k]
  {
    var more := ps[s := p];
    if k == p.key {
      SourceIsOnly(more, s);
    } else {
      var a := SourceOf(ps, k);
      assert more[a] == ps[a];
      SourceIsOnly(more, a);
    }
  }

  lemma KeysGrowBy<S, K, V>(ps: map<S, Proposal<K, V>>, s: S, p: Proposal<K, V>)
    requires s !in ps
    ensures KeysOf(ps[s := p]) == KeysOf(ps) + {p.key}
  {
    forall k ensures k in KeysOf(ps[s := p]) <==> k in KeysOf(ps) + {p.key} {
      KeysGrow(ps, s, p, k);
    }
  }

  lemma SameMap<K, V>(a: map<K, V>, b: map<K, V>)
    requires a.Keys == b.Keys && forall k | k in a :: a[k] == b[k]
    ensures a == b
  {
  }

  lemma AdoptedGrows<S, K, V>(ps: map<S, Proposal<K, V>>, s: S, p: Proposal<K, V>)
    requires Injective(ps) && Injective(ps[s := p]) && s !in ps
    ensures Adopted(ps[s := p]) == Adopted(ps)[p.key := p.value]
  {
    KeysGrowBy(ps, s, p);
    var a, b := Adopted(ps[s := p]), Adopted(ps)[p.key := p.value];
    forall k | k in a ensures a[k] == b[k] {
      AdoptedAt(ps, s, p, k);
    }
    SameMap(a, b);
  }

  lemma InjectiveGrows<S, K, V>(ps: map<S, Proposal<K, V>>, s: S, p: Proposal<K, V>)
    requires Injective(ps) && s !in ps && forall a | a in ps :: ps[a].key != p.key
    ensures Injective(ps[s := p])
  {
    var more := ps[s := p];
    forall a, b | a in more && b in more && more[a].key == more[b].key ensures a == b {
      if a != s { assert ps[a] == more[a]; }
      if b != s { assert ps[b] == more[b]; }
    }
  }

  lemma FreeKey<S, K, V>(base: map<K, V>, ps: map<S, Proposal<K, V>>, p: Proposal<K, V>)
    requires Adoptable(base, ps) && p.key !in base + Adopted(ps)
    ensures p.key !in base && forall a | a in ps :: ps[a].key != p.key
  {
    forall a | a in ps ensures ps[a].key != p.key {
      assert ps[a].key in KeysOf(ps);
    }
  }

  lemma AdoptableGrows<S, K, V>(base: map<K, V>, ps: map<S, Proposal<K, V>>, s: S, p: Proposal<K, V>)
    requires Adoptable(base, ps) && s !in ps && p.key !in base && forall a | a in ps :: ps[a].key != p.key
    ensures Adoptable(base, ps[s := p])
  {
    InjectiveGrows(ps, s, p);
    var more := ps[s := p];
    forall a | a in more ensures more[a].key !in base {
      if a != s { assert ps[a] == more[a]; }
    }
  }

  /** Taking in one more proposal under a free key. */
  lemma TakeIn<S, K, V>(base: map<K, V>, ps: map<S, Proposal<K, V>>, s: S, p: Proposal<K, V>)
    requires Adoptable(base, ps) && s !in ps && p.key !in base + Adopted(ps)
    ensures var more := ps[s := p];
            && Adoptable(base, more)
            && base + Adopted(more) == (base + Adopted(ps))[p.key := p.value]
            && KeysOf(more) == KeysOf(ps) + {p.key}
  {
    FreeKey(base, ps, p);
    AdoptableGrows(base, ps, s, p);
    KeysGrowBy(ps, s, p);
    AdoptedGrows(ps, s, p);
    MergeGrows(base, Adopted(ps), p.key, p.value);
  }

  lemma MergeGrows<K, V>(base: map<K, V>, more: map<K, V>, k: K, v: V)
    ensures base + more[k := v] == (base + more)[k := v]
  {
  }

  /** A key met a second time spoils every larger collection too. */
  lemma NotAdoptable<S, K, V>(base: map<K, V>, ps: map<S, Proposal<K, V>>, s: S, all: map<S, Proposal<K, V>>)
    requires Adoptable(base, ps) && s !in ps && s in all && all[s].key in base + Adopted(ps)
    requires forall a | a in ps :: a in all && all[a] == ps[a]
    ensures !Adoptable(base, all)
  {
    if all[s].key !in base {
      var a :| a in ps && ps[a].key == all[s].key;
      assert a in all;
    }
  }
}

/**
 * The records and tables the furnishing tracker passes around, and the two
 * collection idioms of the Python code that the other modules share:
 * `unique()` (distinct values in first-seen order) and the insertion-ordered
 * dict that a dict comprehension builds.
 */
module Tables {

  type Name = string

  datatype Option<T> = None | Some(value: T)

  /** One row of the characters, materials or furnishings table: a catalog
      name and the user's value for it (owned flag or quantity owned). */
  datatype Entry<V> = Entry(name: Name, value: V)

  /** One line of a crafting recipe: `quantity` units of `material`. */
  datatype Ingredient = Ingredient(material: Name, quantity: nat)

  /** A furnishing a gift set asks for: `amount` units of `name`, crafted from
      `recipe`, or bought when the recipe is empty. The requirement rows of the
      calculator have the same three columns. */
  datatype FurnReq = FurnReq(name: Name, recipe: seq<Ingredient>, amount: nat)

  /** A catalog gift set: the characters that may claim it and the furnishings it needs. */
  datatype GiftSet = GiftSet(name: Name, characters: seq<Name>, materials: seq<FurnReq>)

  /** The static catalog collections, in the order the store returns them. */
  datatype Catalog = Catalog(
    characters: seq<Name>,
    materials: seq<Name>,
    furnishings: seq<Name>,
    sets: seq<GiftSet>)

  /** A dict as Python keeps it: key/value pairs in insertion order. */
  type Dict<V> = seq<(Name, V)>

  /** A stored set entry: the set's name and, per character, whether it was claimed. */
  datatype SetRecord = SetRecord(name: Name, characters: Dict<bool>)

  /** The stored inventory document of one user. */
  datatype UserRecord = UserRecord(
    userId: string,
    characters: map<Name, bool>,
    materials: map<Name, nat>,
    furnishings: map<Name, nat>,
    sets: seq<SetRecord>)

  /** One row of the sets table: set name, character, claimed flag. */
  datatype SetRow = SetRow(name: Name, character: Name, claimed: bool)

  /** The `name` column of a sets table. */
  function SetNames(rows: seq<SetRow>): (names: seq<Name>)
    ensures |names| == |rows|
    ensures forall i :: 0 <= i < |rows| ==> names[i] == rows[i].name
  {
    seq(|rows|, i requires 0 <= i < |rows| => rows[i].name)
  }

  predicate Distinct<T(==)>(s: seq<T>)
  {
    forall i, j :: 0 <= i < j < |s| ==> s[i] != s[j]
  }

  /** No two rows of a table share a name. */
  predicate UniqueNames<V>(t: seq<Entry<V>>)
  {
    forall i, j :: 0 <= i < j < |t| ==> t[i].name != t[j].name
  }

  /** In a table with unique names, the rows after the first keep unique
      names and none of them shares the first row's name. */
  lemma UniqueNamesTail<V>(t: seq<Entry<V>>)
    requires UniqueNames(t) && t != []
    ensures UniqueNames(t[1..])
    ensures forall e :: e in t[1..] ==> e.name != t[0].name
  {
    var rest := t[1..];
    forall i, j | 0 <= i < j < |rest| ensures rest[i].name != rest[j].name {
      assert rest[i] == t[i + 1] && rest[j] == t[j + 1];
    }
    forall e | e in rest ensures e.name != t[0].name {
      var j :| 0 <= j < |rest| && rest[j] == e;
      assert t[j + 1] == e;
    }
  }

  /** In a table with unique names, two rows with the same name are the same row. */
  lemma UniqueNamesSameRow<V>(t: seq<Entry<V>>, a: Entry<V>, b: Entry<V>)
    requires UniqueNames(t) && a in t && b in t && a.name == b.name
    ensures a == b
  {
    var i :| 0 <= i < |t| && t[i] == a;
    var j :| 0 <= j < |t| && t[j] == b;
    assert !(i < j) && !(j < i);
  }

  /** A sequence has no repeats exactly when no value occurs in it twice. */
  lemma {:induction false} DistinctMultiset<T>(s: seq<T>)
    ensures Distinct(s) <==> forall x :: multiset(s)[x] <= 1
  {
    if s != [] {
      var n := |s| - 1;
      var init, last := s[..n], s[n];
      DistinctMultiset(init);
      assert s == init + [last];
      assert multiset(s) == multiset(init) + multiset{last};
      if Distinct(s) {
        assert Distinct(init) by {
          forall i, j | 0 <= i < j < n ensures init[i] != init[j] {
            assert init[i] == s[i] && init[j] == s[j];
          }
        }
      } else {
        var i, j :| 0 <= i < j < |s| && s[i] == s[j];
        if j < n {
          assert init[i] == init[j];
          var x :| multiset(init)[x] > 1;
          assert multiset(s)[x] > 1;
        } else {
          assert init[i] == last;
          assert last in multiset(init);
          assert multiset(s)[last] >= 2;
        }
      }
    }
  }

  /** Reordering a sequence without repeats leaves it without repeats. */
  lemma DistinctPermutation<T>(s: seq<T>, t: seq<T>)
    requires Distinct(s) && multiset(s) == multiset(t)
    ensures Distinct(t)
  {
    DistinctMultiset(s);
    DistinctMultiset(t);
  }

  /** The distinct elements of `s`, each kept where it is first seen (pandas' `unique`). */
  function Unique<T(==)>(s: seq<T>): (u: seq<T>)
    ensures forall i :: 0 <= i < |u| ==> u[i] in s
    ensures forall i :: 0 <= i < |s| ==> s[i] in u
    ensures Distinct(u)
  {
    if s == [] then []
    else
      var init := s[..|s| - 1];
      var u' := Unique(init);
      if s[|s| - 1] in init then u' else u' + [s[|s| - 1]]
  }

  /** Appending a value keeps the distinct values, adding it last if it is new. */
  lemma UniqueSnoc<T>(s: seq<T>, x: T)
    ensures Unique(s + [x]) == if x in s then Unique(s) else Unique(s) + [x]
  {
    assert (s + [x])[..|s|] == s;
  }

  /** The position of the first occurrence of `x` in `s`. */
  function FirstIndex<T(==)>(s: seq<T>, x: T): (i: nat)
    requires x in s
    ensures i < |s| && s[i] == x && x !in s[..i]
  {
    if s[0] == x then 0 else 1 + FirstIndex(s[1..], x)
  }

  lemma {:induction false} FirstIndexOfPrefix<T>(s: seq<T>, k: nat, x: T)
    requires k <= |s| && x in s[..k]
    ensures FirstIndex(s, x) == FirstIndex(s[..k], x)
  {
    if s[0] != x {
      assert s[1..][..k - 1] == s[..k][1..];
      FirstIndexOfPrefix(s[1..], k - 1, x);
    }
  }

  /** `Unique` lists the values in the order of their first occurrences. */
  lemma {:induction false} UniqueFirstSeen<T>(s: seq<T>)
    ensures forall i, j :: 0 <= i < j < |Unique(s)| ==>
      FirstIndex(s, Unique(s)[i]) < FirstIndex(s, Unique(s)[j])
  {
    if s != [] {
      var n := |s| - 1;
      var init := s[..n];
      var u, u' := Unique(s), Unique(init);
      UniqueFirstSeen(init);
      forall x | x in init
        ensures FirstIndex(s, x) == FirstIndex(init, x) < n
      {
        FirstIndexOfPrefix(s, n, x);
      }
      if s[n] !in init {
        assert FirstIndex(s, s[n]) == n by {
          assert s[n] !in s[..FirstIndex(s, s[n])] && s[..n] == init;
        }
      }
      forall i, j | 0 <= i < j < |u|
        ensures FirstIndex(s, u[i]) < FirstIndex(s, u[j])
      {
        assert u[i] == u'[i];
        if j < |u'| {
          assert u[j] == u'[j];
        }
      }
    }
  }

  // ---- Insertion-ordered dicts ----

  /** The keys of a dict, in insertion order. */
  function KeysOf<V>(d: Dict<V>): (ks: seq<Name>)
    ensures |ks| == |d|
    ensures forall i :: 0 <= i < |d| ==> ks[i] == d[i].0
  {
    seq(|d|, i requires 0 <= i < |d| => d[i].0)
  }

  /** `d[k]` if `k` is a key of `d`. */
  function Lookup<V>(d: Dict<V>, k: Name): (r: Option<V>)
    ensures r.Some? <==> k in KeysOf(d)
  {
    if d == [] then None
    else if d[0].0 == k then Some(d[0].1)
    else
      assert KeysOf(d) == [d[0].0] + KeysOf(d[1..]);
      Lookup(d[1..], k)
  }

  /** `d[k] = v`: an existing key keeps its position, a new key goes last. */
  function Put<V>(d: Dict<V>, k: Name, v: V): Dict<V>
  {
    if d == [] then [(k, v)]
    else if d[0].0 == k then [(k, v)] + d[1..]
    else [d[0]] + Put(d[1..], k, v)
  }

  lemma {:induction false} PutLookup<V>(d: Dict<V>, k: Name, v: V, k': Name)
    ensures Lookup(Put(d, k, v), k') == if k' == k then Some(v) else Lookup(d, k')
  {
    if d != [] && d[0].0 != k {
      PutLookup(d[1..], k, v, k');
      assert Put(d, k, v)[1..] == Put(d[1..], k, v);
    }
  }

  lemma {:induction false} PutKeys<V>(d: Dict<V>, k: Name, v: V)
    ensures KeysOf(Put(d, k, v)) == if k in KeysOf(d) then KeysOf(d) else KeysOf(d) + [k]
  {
    if d == [] {
      assert KeysOf(Put(d, k, v)) == [k];
    } else {
      var tail := d[1..];
      KeysOfCons(d[0], tail);
      assert d == [d[0]] + tail;
      if d[0].0 == k {
        KeysOfCons((k, v), tail);
      } else {
        var r' := Put(tail, k, v);
        PutKeys(tail, k, v);
        KeysOfCons(d[0], r');
        if k !in KeysOf(tail) {
          assert [d[0].0] + (KeysOf(tail) + [k]) == ([d[0].0] + KeysOf(tail)) + [k];
        }
      }
    }
  }

  lemma KeysOfCons<V>(x: (Name, V), d: Dict<V>)
    ensures KeysOf([x] + d) == [x.0] + KeysOf(d)
  {
  }

  /** The value of the last pair in `ps` whose key is `k`. */
  function LastValue<V>(ps: Dict<V>, k: Name): Option<V>
  {
    if ps == [] then None
    else if ps[|ps| - 1].0 == k then Some(ps[|ps| - 1].1)
    else LastValue(ps[..|ps| - 1], k)
  }

  /** The dict `{key: value for key, value in ps}`: keys in first-seen order, the last value winning. */
  function FromPairs<V>(ps: Dict<V>): (d: Dict<V>)
    ensures KeysOf(d) == Unique(KeysOf(ps))
    ensures forall k :: Lookup(d, k) == LastValue(ps, k)
  {
    if ps == [] then []
    else
      var n := |ps| - 1;
      var d' := FromPairs(ps[..n]);
      FromPairsStep(ps, d');
      Put(d', ps[n].0, ps[n].1)
  }

  /** Adding the last pair to the dict of the earlier pairs gives the dict of all of them. */
  lemma FromPairsStep<V>(ps: Dict<V>, d': Dict<V>)
    requires ps != []
    requires KeysOf(d') == Unique(KeysOf(ps[..|ps| - 1]))
    requires forall k :: Lookup(d', k) == LastValue(ps[..|ps| - 1], k)
    ensures KeysOf(Put(d', ps[|ps| - 1].0, ps[|ps| - 1].1)) == Unique(KeysOf(ps))
    ensures forall k :: Lookup(Put(d', ps[|ps| - 1].0, ps[|ps| - 1].1), k) == LastValue(ps, k)
  {
    var n := |ps| - 1;
    var ks := KeysOf(ps);
    assert KeysOf(ps[..n]) == ks[..n];
    assert Unique(ks) == if ks[n] in ks[..n] then Unique(ks[..n]) else Unique(ks[..n]) + [ks[n]];
    PutKeys(d', ps[n].0, ps[n].1);
    forall k ensures Lookup(Put(d', ps[n].0, ps[n].1), k) == LastValue(ps, k) {
      PutLookup(d', ps[n].0, ps[n].1, k);
    }
  }

  lemma PutNewKey<V>(d: Dict<V>, k: Name, v: V)
    requires k !in KeysOf(d)
    ensures Put(d, k, v) == d + [(k, v)]
  {
    if d != [] {
      assert KeysOf(d) == [d[0].0] + KeysOf(d[1..]);
      PutNewKey(d[1..], k, v);
      assert [d[0]] + (d[1..] + [(k, v)]) == d + [(k, v)];
    }
  }

  /** A dict comprehension over pairs whose keys are already distinct gives the pairs back. */
  lemma {:induction false} FromPairsOfDict<V>(d: Dict<V>)
    requires Distinct(KeysOf(d))
    ensures FromPairs(d) == d
  {
    if d != [] {
      var n := |d| - 1;
      var init, last := d[..n], d[n];
      LastKeyFresh(d);
      calc {
        FromPairs(d);
        { FromPairsUnfold(d); }
        Put(FromPairs(init), last.0, last.1);
        { FromPairsOfDict(init); }
        Put(init, last.0, last.1);
        { PutNewKey(init, last.0, last.1); }
        init + [last];
        d;
      }
    }
  }

  /** Without its last pair a dict with distinct keys still has distinct keys,
      none of them the last key. */
  lemma LastKeyFresh<V>(d: Dict<V>)
    requires Distinct(KeysOf(d)) && d != []
    ensures Distinct(KeysOf(d[..|d| - 1]))
    ensures d[|d| - 1].0 !in KeysOf(d[..|d| - 1])
  {
    assert KeysOf(d[..|d| - 1]) == KeysOf(d)[..|d| - 1];
  }

  lemma FromPairsUnfold<V>(ps: Dict<V>)
    requires ps != []
    ensures FromPairs(ps) == Put(FromPairs(ps[..|ps| - 1]), ps[|ps| - 1].0, ps[|ps| - 1].1)
  {
  }
}

/**
  The in-memory credential store: a Python dict from site to entry. A dict
  iterates in insertion order, so the model keeps the key map together with
  the sequence of keys in the order they were first inserted. Assigning to a
  key already present keeps its position; deleting a key removes it from the
  order.
*/
module Store {

  /** One stored credential; `password` holds the encoded password, never the
      plaintext. */
  datatype Entry = Entry(username: string, password: string)

  /** A site with its entry, as `dict.items()` yields it. */
  type Item = (string, Entry)

  datatype Vault = Vault(entries: map<string, Entry>, order: seq<string>)

  predicate Distinct(s: seq<string>) {
    forall i, j :: 0 <= i < j < |s| ==> s[i] != s[j]
  }

  /** The order lists every key of the map exactly once. */
  ghost predicate Valid(v: Vault) {
    && Distinct(v.order)
    && (forall k :: k in v.entries <==> k in v.order)
  }

  /** The empty vault, `{}`. */
  const Empty: Vault := Vault(map[], [])

  lemma EmptyValid()
    ensures Valid(Empty)
  {
  }

  /** `data[site] = e`: `site` now maps to `e`, every other key keeps its entry,
      and the result is again a valid vault. */
  function Put(v: Vault, site: string, e: Entry): (r: Vault)
    requires Valid(v)
    ensures Valid(r)
    ensures site in r.entries && r.entries[site] == e
    ensures forall k :: k != site ==> (k in r.entries <==> k in v.entries)
    ensures forall k :: k != site && k in v.entries ==> r.entries[k] == v.entries[k]
  {
    if site in v.entries then
      Vault(v.entries[site := e], v.order)
    else
      Vault(v.entries[site := e], v.order + [site])
  }

  /** Overwriting a present key leaves the order as it is. */
  lemma PutExistingKeepsOrder(v: Vault, site: string, e: Entry)
    requires Valid(v) && site in v.entries
    ensures Put(v, site, e).order == v.order
  {
  }

  /** `s` with every occurrence of `x` removed, the rest in order. */
  function Without(s: seq<string>, x: string): (r: seq<string>)
    ensures forall y :: y in r <==> y in s && y != x
    ensures Distinct(s) ==> Distinct(r)
    ensures x !in s ==> r == s
  {
    if |s| == 0 then []
    else if s[0] == x then
      DistinctTail(s);
      Without(s[1..], x)
    else
      DistinctTail(s);
      var rest := Without(s[1..], x);
      DistinctCons(s[0], rest);
      [s[0]] + rest
  }

  lemma DistinctTail(s: seq<string>)
    requires |s| > 0
    ensures Distinct(s) ==> Distinct(s[1..]) && s[0] !in s[1..]
  {
  }

  lemma DistinctCons(a: string, rest: seq<string>)
    ensures Distinct(rest) && a !in rest ==> Distinct([a] + rest)
  {
    var r := [a] + rest;
    if Distinct(rest) && a !in rest {
      forall i, j | 0 <= i < j < |r|
        ensures r[i] != r[j]
      {
        assert r[j] == rest[j - 1];
        if i > 0 {
          assert r[i] == rest[i - 1];
        }
      }
    }
  }

  /** In a sequence without duplicates, removing `s[i]` removes exactly that
      position. */
  lemma {:induction false} WithoutAt(s: seq<string>, i: nat)
    requires Distinct(s) && i < |s|
    ensures Without(s, s[i]) == s[..i] + s[i + 1..]
    decreases i
  {
    if i == 0 {
      WithoutHead(s);
    } else {
      DistinctTailAt(s, i);
      WithoutAt(s[1..], i - 1);
      WithoutKeepsHead(s, i);
    }
  }

  lemma DistinctTailAt(s: seq<string>, i: nat)
    requires Distinct(s) && 0 < i < |s|
    ensures Distinct(s[1..]) && s[1..][i - 1] == s[i] && s[0] != s[i]
  {
    DistinctTail(s);
  }

  lemma WithoutHead(s: seq<string>)
    requires Distinct(s) && |s| > 0
    ensures Without(s, s[0]) == s[..0] + s[1..]
  {
    DistinctTail(s);
    assert Without(s, s[0]) == Without(s[1..], s[0]);
    assert s[..0] + s[1..] == s[1..];
  }

  lemma WithoutKeepsHead(s: seq<string>, i: nat)
    requires 0 < i < |s| && s[0] != s[i]
    requires Without(s[1..], s[i]) == s[1..][..i - 1] + s[1..][i..]
    ensures Without(s, s[i]) == s[..i] + s[i + 1..]
  {
    WithoutCons(s, s[i]);
    DropAtCons(s, i);
  }

  lemma WithoutCons(s: seq<string>, x: string)
    requires |s| > 0 && s[0] != x
    ensures Without(s, x) == [s[0]] + Without(s[1..], x)
  {
  }

  lemma DropAtCons<T>(s: seq<T>, i: nat)
    requires 0 < i < |s|
    ensures [s[0]] + (s[1..][..i - 1] + s[1..][i..]) == s[..i] + s[i + 1..]
  {
    assert s[1..][..i - 1] == s[1..i];
    assert s[1..][i..] == s[i + 1..];
    assert [s[0]] + s[1..i] == s[..i];
  }

  /** `del data[site]` when `site` is present, and no change when it is not:
      exactly `site` disappears, every other key keeps its entry. */
  function Remove(v: Vault, site: string): (r: Vault)
    requires Valid(v)
    ensures Valid(r)
    ensures site !in r.entries
    ensures forall k :: k != site ==> (k in r.entries <==> k in v.entries)
    ensures forall k :: k in r.entries ==> r.entries[k] == v.entries[k]
    ensures site !in v.entries ==> r == v
  {
    if site !in v.entries then
      v
    else
      Vault(v.entries - {site}, Without(v.order, site))
  }

  /** `data.items()`: every entry, in insertion order. */
  function Items(v: Vault): (r: seq<Item>)
    requires Valid(v)
    ensures |r| == |v.order|
    ensures forall i {:trigger r[i]} :: 0 <= i < |r| ==> r[i] == (v.order[i], v.entries[v.order[i]])
  {
    seq(|v.order|, i requires 0 <= i < |v.order| => (v.order[i], v.entries[v.order[i]]))
  }

  /** Overwriting a present key keeps its position in the listing and changes
      only that row. */
  lemma PutKeepsPosition(v: Vault, i: nat, e: Entry)
    requires Valid(v) && i < |v.order|
    ensures Items(Put(v, v.order[i], e)) == Items(v)[i := (v.order[i], e)]
  {
    var site := v.order[i];
    var r := Put(v, site, e);
    assert r.order == v.order;
    forall k | 0 <= k < |v.order|
      ensures Items(r)[k] == Items(v)[i := (site, e)][k]
    {
      if k != i {
        assert v.order[k] != site;
      }
    }
  }

  /** Adding a new key appends one row at the end of the listing. */
  lemma PutAppends(v: Vault, site: string, e: Entry)
    requires Valid(v) && site !in v.entries
    ensures Items(Put(v, site, e)) == Items(v) + [(site, e)]
  {
    var r := Put(v, site, e);
    assert r.order == v.order + [site];
    forall k | 0 <= k < |r.order|
      ensures Items(r)[k] == (Items(v) + [(site, e)])[k]
    {
      if k < |v.order| {
        assert v.order[k] != site;
      }
    }
  }

  /** Deleting a present key removes its row and keeps the others in order. */
  lemma RemoveDropsRow(v: Vault, i: nat)
    requires Valid(v) && i < |v.order|
    ensures Items(Remove(v, v.order[i])) == Items(v)[..i] + Items(v)[i + 1..]
  {
    var site := v.order[i];
    var r := Remove(v, site);
    WithoutAt(v.order, i);
    assert r.order == v.order[..i] + v.order[i + 1..];
    var lhs, rhs := Items(r), Items(v)[..i] + Items(v)[i + 1..];
    assert |lhs| == |rhs|;
    forall k | 0 <= k < |lhs|
      ensures lhs[k] == rhs[k]
    {
      if k < i {
        assert r.order[k] == v.order[k];
      } else {
        assert r.order[k] == v.order[k + 1];
      }
    }
  }

  /** Site keys of an item list are pairwise distinct. */
  predicate UniqueSites(ps: seq<Item>) {
    forall i, j :: 0 <= i < j < |ps| ==> ps[i].0 != ps[j].0
  }

  lemma ItemsUnique(v: Vault)
    requires Valid(v)
    ensures UniqueSites(Items(v))
  {
  }

  /** Builds a dict from items in order, as a JSON object is read back. Its
      keys are the items' sites (`FromItemsKeys`), a repeated site keeps its
      last entry (`FromItemsLastWins`) and its first position
      (`FromItemsOrder`). */
  function FromItems(ps: seq<Item>): (v: Vault)
    ensures Valid(v)
  {
    if |ps| == 0 then
      EmptyValid();
      Empty
    else
      Put(FromItems(ps[..|ps| - 1]), ps[|ps| - 1].0, ps[|ps| - 1].1)
  }

  /** Some item has site `k`. */
  ghost predicate HasSite(ps: seq<Item>, k: string) {
    exists i :: 0 <= i < |ps| && ps[i].0 == k
  }

  /** No later item has the site of item `i`. */
  ghost predicate LastOfSite(ps: seq<Item>, i: nat)
    requires i < |ps|
  {
    forall m :: i < m < |ps| ==> ps[m].0 != ps[i].0
  }

  /** Site `x` appears before site `y` first does. */
  ghost predicate OccursBefore(ps: seq<Item>, x: string, y: string) {
    exists i :: 0 <= i < |ps| && ps[i].0 == x && forall m :: 0 <= m <= i ==> ps[m].0 != y
  }

  lemma HasSiteInit(ps: seq<Item>, k: string)
    requires |ps| > 0 && ps[|ps| - 1].0 != k
    ensures HasSite(ps[..|ps| - 1], k) <==> HasSite(ps, k)
  {
    var init := ps[..|ps| - 1];
    if HasSite(ps, k) {
      var i :| 0 <= i < |ps| && ps[i].0 == k;
      assert init[i].0 == k;
    }
    if HasSite(init, k) {
      var i :| 0 <= i < |init| && init[i].0 == k;
      assert ps[i].0 == k;
    }
  }

  /** The keys read back are exactly the items' sites. */
  lemma {:induction false} FromItemsKeys(ps: seq<Item>)
    ensures forall k :: k in FromItems(ps).entries <==> HasSite(ps, k)
    decreases |ps|
  {
    if |ps| > 0 {
      var init, last := ps[..|ps| - 1], ps[|ps| - 1];
      FromItemsKeys(init);
      forall k
        ensures k in FromItems(ps).entries <==> HasSite(ps, k)
      {
        if k == last.0 {
          assert ps[|ps| - 1].0 == k;
        } else {
          HasSiteInit(ps, k);
        }
      }
    }
  }

  /** A site read back holds the entry of its last item. */
  lemma {:induction false} FromItemsLastWins(ps: seq<Item>)
    ensures forall i :: 0 <= i < |ps| && LastOfSite(ps, i) ==>
      ps[i].0 in FromItems(ps).entries && FromItems(ps).entries[ps[i].0] == ps[i].1
    decreases |ps|
  {
    if |ps| > 0 {
      var init, last := ps[..|ps| - 1], ps[|ps| - 1];
      FromItemsLastWins(init);
      forall i | 0 <= i < |ps| && LastOfSite(ps, i)
        ensures ps[i].0 in FromItems(ps).entries && FromItems(ps).entries[ps[i].0] == ps[i].1
      {
        if i < |ps| - 1 {
          assert ps[i] == init[i];
          assert ps[i].0 != last.0;
          assert LastOfSite(init, i) by {
            forall m | i < m < |init|
              ensures init[m].0 != init[i].0
            {
              assert init[m] == ps[m];
            }
          }
        }
      }
    }
  }

  lemma OccursBeforeInit(ps: seq<Item>, x: string, y: string)
    requires |ps| > 0 && OccursBefore(ps[..|ps| - 1], x, y)
    ensures OccursBefore(ps, x, y)
  {
    var init := ps[..|ps| - 1];
    var i :| 0 <= i < |init| && init[i].0 == x && forall m :: 0 <= m <= i ==> init[m].0 != y;
    assert ps[i].0 == x;
    forall m | 0 <= m <= i
      ensures ps[m].0 != y
    {
      assert ps[m] == init[m];
    }
  }

  /** A site read back comes before every site that first appears after it:
      a repeated site keeps the position of its first item. */
  lemma {:induction false} FromItemsOrder(ps: seq<Item>)
    ensures forall a, b :: 0 <= a < b < |FromItems(ps).order| ==>
      OccursBefore(ps, FromItems(ps).order[a], FromItems(ps).order[b])
    decreases |ps|
  {
    if |ps| > 0 {
      var init, last := ps[..|ps| - 1], ps[|ps| - 1];
      var before := FromItems(init);
      assert FromItems(ps) == Put(before, last.0, last.1);
      var o := FromItems(ps).order;
      FromItemsOrder(init);
      FromItemsKeys(init);
      forall a, b | 0 <= a < b < |o|
        ensures OccursBefore(ps, o[a], o[b])
      {
        if b < |before.order| {
          assert o[a] == before.order[a] && o[b] == before.order[b];
          assert OccursBefore(init, before.order[a], before.order[b]);
          OccursBeforeInit(ps, o[a], o[b]);
        } else {
          LastAppended(before, last, o, a, b);
          var x := o[a];
          assert HasSite(init, x);
          var i :| 0 <= i < |init| && init[i].0 == x;
          forall m | 0 <= m <= i
            ensures ps[m].0 != last.0
          {
            assert ps[m] == init[m];
            assert HasSite(init, init[m].0);
          }
          assert ps[i].0 == x;
        }
      }
    }
  }

  lemma LastAppended(before: Vault, last: Item, o: seq<string>, a: nat, b: nat)
    requires Valid(before) && o == Put(before, last.0, last.1).order
    requires a < b < |o| && b >= |before.order|
    ensures last.0 !in before.entries && o[b] == last.0
    ensures o[a] == before.order[a] && o[a] in before.entries
  {
  }

  /** The first `n` rows of a vault, as a vault. */
  function Prefix(v: Vault, n: nat): (p: Vault)
    requires Valid(v) && n <= |v.order|
    ensures Valid(p)
  {
    var o := v.order[..n];
    assert forall k :: k in o ==> k in v.order;
    Vault(map k | k in o :: v.entries[k], o)
  }

  lemma PrefixStep(v: Vault, n: nat)
    requires Valid(v) && 0 < n <= |v.order|
    ensures Put(Prefix(v, n - 1), v.order[n - 1], v.entries[v.order[n - 1]]) == Prefix(v, n)
  {
    var site := v.order[n - 1];
    var before := Prefix(v, n - 1);
    assert site !in v.order[..n - 1];
    assert site !in before.entries;
    var r := Put(before, site, v.entries[site]);
    assert r.order == v.order[..n - 1] + [site] == v.order[..n];
    assert r.entries == Prefix(v, n).entries;
  }

  lemma {:induction false} FromItemsPrefix(v: Vault, n: nat)
    requires Valid(v) && n <= |v.order|
    ensures FromItems(Items(v)[..n]) == Prefix(v, n)
    decreases n
  {
    if n > 0 {
      var ps := Items(v)[..n];
      assert ps[..n - 1] == Items(v)[..n - 1];
      assert ps[n - 1] == (v.order[n - 1], v.entries[v.order[n - 1]]);
      FromItemsPrefix(v, n - 1);
      PrefixStep(v, n);
    } else {
      assert Prefix(v, 0) == Empty;
    }
  }

  /** Reading back the items of a vault rebuilds exactly that vault: keys,
      entries and order. */
  lemma FromItemsOfItems(v: Vault)
    requires Valid(v)
    ensures FromItems(Items(v)) == v
  {
    FromItemsPrefix(v, |v.order|);
    assert Items(v)[..|v.order|] == Items(v);
    assert v.order[..|v.order|] == v.order;
    assert Prefix(v, |v.order|).entries == v.entries;
  }
}

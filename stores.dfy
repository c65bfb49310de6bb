/**
 * The bag/tiddler store the importer works on: named bags, each with a
 * policy, and tiddler texts keyed by (bag name, title), with the store
 * operations the importer calls.
 */
module Stores {
  import opened Wrappers
  import opened Sorting
  import opened Policies

  /** Tiddler texts keyed by (bag name, title); a title is unique within its bag. */
  type TiddlerMap = map<(string, string), string>

  /** A tiddler as the importer handles it: its title, the name of its bag, and its text. */
  datatype Tiddler = Tiddler(title: string, bag: string, text: string)

  function TitlesOf(ts: seq<Tiddler>): (r: seq<string>)
    ensures |r| == |ts| && forall i :: 0 <= i < |ts| ==> r[i] == ts[i].title
  {
    seq(|ts|, i requires 0 <= i < |ts| => ts[i].title)
  }

  /** The titles of the tiddlers stored in `bag`. */
  function Titles(m: TiddlerMap, bag: string): set<string>
  {
    set k | k in m && k.0 == bag :: k.1
  }

  /** The tiddler map without the tiddlers of `bag`. */
  function Dropped(m: TiddlerMap, bag: string): (r: TiddlerMap)
    ensures forall k :: k in r <==> k in m && k.0 != bag
    ensures forall k :: k in r ==> r[k] == m[k]
  {
    map k | k in m && k.0 != bag :: m[k]
  }

  class Store {
    var bags: map<string, Policy>
    var tiddlers: TiddlerMap

    /** Every stored tiddler belongs to a stored bag. */
    ghost predicate Valid()
      reads this
    {
      forall k :: k in tiddlers ==> k.0 in bags
    }

    constructor ()
      ensures Valid() && bags == map[] && tiddlers == map[]
    {
      bags := map[];
      tiddlers := map[];
    }

    /** `store.put(bag)`: creates the bag or replaces its policy, keeping its tiddlers. */
    method PutBag(name: string, policy: Policy)
      requires Valid()
      modifies this
      ensures Valid()
      ensures bags == old(bags)[name := policy] && tiddlers == old(tiddlers)
    {
      bags := bags[name := policy];
    }

    /** A skinny `store.get(bag)`: the policy, or nothing when the bag does not exist. */
    method GetBag(name: string) returns (r: Option<Policy>)
      ensures r.Some? <==> name in bags
      ensures r.Some? ==> r.value == bags[name]
    {
      r := if name in bags then Some(bags[name]) else None;
    }

    /** `store.put(tiddler)`: stores (or overwrites) the tiddler under its bag and title. */
    method PutTiddler(t: Tiddler)
      requires Valid() && t.bag in bags
      modifies this
      ensures Valid()
      ensures bags == old(bags) && tiddlers == old(tiddlers)[(t.bag, t.title) := t.text]
    {
      tiddlers := tiddlers[(t.bag, t.title) := t.text];
    }

    /** `store.get(tiddler)`: the stored tiddler, or nothing when it does not exist. */
    method GetTiddler(bag: string, title: string) returns (r: Option<Tiddler>)
      ensures r.Some? <==> (bag, title) in tiddlers
      ensures r.Some? ==> r.value == Tiddler(title, bag, tiddlers[(bag, title)])
    {
      r := if (bag, title) in tiddlers then Some(Tiddler(title, bag, tiddlers[(bag, title)])) else None;
    }

    /** `store.list_bags()`: every bag name once, in no particular order. */
    method ListBags() returns (names: seq<string>)
      ensures forall n :: n in names <==> n in bags
      ensures Distinct(names)
    {
      names := [];
      var rest := bags.Keys;
      while rest != {}
        invariant rest <= bags.Keys
        invariant forall n :: n in names <==> n in bags && n !in rest
        invariant Distinct(names)
        decreases rest
      {
        var n :| n in rest;
        names := names + [n];
        rest := rest - {n};
      }
    }

    /**
     * `store.list_bag_tiddlers(bag)`: every tiddler of the bag once, in no
     * particular order, or nothing when the bag does not exist.
     */
    method ListBagTiddlers(bag: string) returns (r: Option<seq<Tiddler>>)
      ensures r.Some? <==> bag in bags
      ensures r.Some? ==> forall i :: 0 <= i < |r.value| ==>
        r.value[i].bag == bag && (bag, r.value[i].title) in tiddlers
        && r.value[i].text == tiddlers[(bag, r.value[i].title)]
      ensures r.Some? ==> forall t :: t in TitlesOf(r.value) <==> (bag, t) in tiddlers
      ensures r.Some? ==> Distinct(TitlesOf(r.value))
    {
      if bag !in bags {
        return None;
      }
      var ts: seq<Tiddler> := [];
      var rest := Titles(tiddlers, bag);
      while rest != {}
        invariant forall i :: 0 <= i < |ts| ==>
          ts[i].bag == bag && (bag, ts[i].title) in tiddlers && ts[i].text == tiddlers[(bag, ts[i].title)]
        invariant forall t :: t in TitlesOf(ts) <==> (bag, t) in tiddlers && t !in rest
        invariant rest <= Titles(tiddlers, bag)
        invariant Distinct(TitlesOf(ts))
        decreases rest
      {
        var t :| t in rest;
        assert (bag, t) in tiddlers;
        var next := Tiddler(t, bag, tiddlers[(bag, t)]);
        assert TitlesOf(ts + [next]) == TitlesOf(ts) + [t];
        ts := ts + [next];
        rest := rest - {t};
      }
      r := Some(ts);
    }

    /** `store.delete(bag)`: removes the bag and every tiddler in it. */
    method DeleteBag(name: string)
      requires Valid() && name in bags
      modifies this
      ensures Valid()
      ensures bags == old(bags) - {name} && tiddlers == Dropped(old(tiddlers), name)
    {
      bags := bags - {name};
      tiddlers := Dropped(tiddlers, name);
    }
  }
}

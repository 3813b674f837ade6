/**
 * The patch layer's per-image graph store, `PatchObject`.  An object keeps
 * three ordered maps from static-parse entities (functions, blocks, edges) to
 * the patch-layer wrappers built for them, a code base address, and handles
 * to its code object, address space, CFG maker and callback.
 *
 * Static entities, wrappers and the foreign objects are identified by opaque
 * numbers; a `std::map` keyed by a pointer is ordered by that number.
 */
module PatchAPI {
  import opened Common

  // ---------------------------------------------------------------------------
  // Entities

  /** A patch-layer function: its own identity and the static function it wraps. */
  datatype PatchFunction = PatchFunction(handle: nat, func: nat)

  /** A patch-layer block: its own identity and the static block it wraps. */
  datatype PatchBlock = PatchBlock(handle: nat, block: nat)

  /** A patch-layer edge: its identity, the static edge it wraps and its two
      endpoint blocks, either of which may be absent. */
  datatype PatchEdge = PatchEdge(handle: nat, edge: nat, src: Option<PatchBlock>, trg: Option<PatchBlock>)

  /** Every wrapper in a store is recorded under the static entity it wraps. */
  ghost predicate FuncsKeyed(m: map<nat, PatchFunction>)
  {
    forall f :: f in m ==> m[f].func == f
  }

  ghost predicate BlocksKeyed(m: map<nat, PatchBlock>)
  {
    forall b :: b in m ==> m[b].block == b
  }

  ghost predicate EdgesKeyed(m: map<nat, PatchEdge>)
  {
    forall e :: e in m ==> m[e].edge == e
  }

  /** Different keys hold different values. */
  ghost predicate Injective<V>(m: map<nat, V>)
  {
    forall a, b :: a in m && b in m && a != b ==> m[a] != m[b]
  }

  /** A store keyed by the wrapped entity never holds one wrapper twice. */
  lemma KeyedStoresAreInjective(fm: map<nat, PatchFunction>, bm: map<nat, PatchBlock>, em: map<nat, PatchEdge>)
    requires FuncsKeyed(fm) && BlocksKeyed(bm) && EdgesKeyed(em)
    ensures Injective(fm) && Injective(bm) && Injective(em)
  {
    forall a, b | a in fm && b in fm && a != b ensures fm[a] != fm[b] {
      assert fm[a].func == a && fm[b].func == b;
    }
    forall a, b | a in bm && b in bm && a != b ensures bm[a] != bm[b] {
      assert bm[a].block == a && bm[b].block == b;
    }
    forall a, b | a in em && b in em && a != b ensures em[a] != em[b] {
      assert em[a].edge == a && em[b].edge == b;
    }
  }

  // ---------------------------------------------------------------------------
  // Key order

  /** The least key of a non-empty set: the smaller of any one key and the
      least of the others. */
  ghost function Least(s: set<nat>): (k: nat)
    requires s != {}
    ensures k in s && forall j :: j in s ==> k <= j
    decreases s
  {
    var x :| x in s;
    var rest := s - {x};
    assert forall j :: j in s ==> j == x || j in rest;
    if rest == {} then x
    else
      var m := Least(rest);
      if x < m then x else m
  }

  /** The keys of a set in the order a `std::map` iterator visits them. */
  ghost function SortedKeys(s: set<nat>): seq<nat>
    decreases s
  {
    if s == {} then [] else [Least(s)] + SortedKeys(s - {Least(s)})
  }

  /** The visit starts at the least key and goes on with the others. */
  lemma SortedKeysFirst(s: set<nat>, k: nat)
    requires k in s && forall j :: j in s ==> k <= j
    ensures SortedKeys(s) == [k] + SortedKeys(s - {k})
  {
    assert Least(s) <= k && k <= Least(s);
  }

  /** The order visits every key exactly once. */
  lemma {:induction false} SortedKeysMembers(s: set<nat>)
    ensures |SortedKeys(s)| == |s|
    ensures forall k :: k in s <==> k in SortedKeys(s)
    decreases s
  {
    if s != {} {
      var k := Least(s);
      SortedKeysMembers(s - {k});
      var r, t := SortedKeys(s), SortedKeys(s - {k});
      assert r == [k] + t;
      forall x ensures x in s <==> x in r {
        assert x in r <==> x == k || x in t;
      }
    }
  }

  /** The order is strictly ascending. */
  lemma {:induction false} SortedKeysIncreasing(s: set<nat>)
    ensures forall i, j :: 0 <= i < j < |SortedKeys(s)| ==> SortedKeys(s)[i] < SortedKeys(s)[j]
    decreases s
  {
    if s != {} {
      var k := Least(s);
      SortedKeysIncreasing(s - {k});
      SortedKeysMembers(s - {k});
      var r, t := SortedKeys(s), SortedKeys(s - {k});
      assert r == [k] + t;
      forall i, j | 0 <= i < j < |r| ensures r[i] < r[j] {
        assert r[j] == t[j - 1];
        if i > 0 {
          assert r[i] == t[i - 1];
        } else {
          assert t[j - 1] in s - {k};
        }
      }
    }
  }

  /** The values stored under `keys`, in that order. */
  function ValuesAt<V>(m: map<nat, V>, keys: seq<nat>): (r: seq<V>)
    requires forall k :: k in keys ==> k in m
    ensures |r| == |keys|
    ensures forall i :: 0 <= i < |keys| ==> r[i] == m[keys[i]]
  {
    if keys == [] then [] else [m[keys[0]]] + ValuesAt(m, keys[1..])
  }

  /** What walking a map from `begin()` to `end()` yields. */
  ghost function ValuesInOrder<V>(m: map<nat, V>): seq<V>
  {
    SortedKeysMembers(m.Keys);
    SortedKeysIncreasing(m.Keys);
    ValuesAt(m, SortedKeys(m.Keys))
  }

  /** The walk yields each stored value once per key, in ascending key order,
      and no value twice when different keys hold different values. */
  lemma ValuesInOrderVisitsEach<V>(m: map<nat, V>)
    ensures |ValuesInOrder(m)| == |m|
    ensures forall k :: k in m ==> exists i :: 0 <= i < |m| && SortedKeys(m.Keys)[i] == k && ValuesInOrder(m)[i] == m[k]
    ensures Injective(m) ==> forall i, j :: 0 <= i < j < |m| ==> ValuesInOrder(m)[i] != ValuesInOrder(m)[j]
  {
    SortedKeysMembers(m.Keys);
    SortedKeysIncreasing(m.Keys);
    var keys := SortedKeys(m.Keys);
    var r := ValuesInOrder(m);
    assert |m.Keys| == |m|;
    forall k | k in m ensures exists i :: 0 <= i < |m| && keys[i] == k && r[i] == m[k] {
      var i :| 0 <= i < |keys| && keys[i] == k;
      assert r[i] == m[k];
    }
    if Injective(m) {
      forall i, j | 0 <= i < j < |m| ensures r[i] != r[j] {
        assert keys[i] < keys[j];
        assert r[i] == m[keys[i]] && r[j] == m[keys[j]];
      }
    }
  }

  /** Appending one more key to the walk appends its value. */
  lemma ValuesAtSnoc<V>(m: map<nat, V>, keys: seq<nat>, k: nat)
    requires (forall j :: j in keys ==> j in m) && k in m
    ensures ValuesAt(m, keys + [k]) == ValuesAt(m, keys) + [m[k]]
  {
  }

  /** One turn of the visitor loop: the least key left is the next one in
      order, and its value is the next one written. */
  lemma EmitStep<V>(m: map<nat, V>, sink: seq<V>, out: seq<V>, done: seq<nat>, rest: set<nat>, k: nat)
    requires (forall j :: j in done ==> j in m) && rest <= m.Keys
    requires k in rest && forall j :: j in rest ==> k <= j
    requires SortedKeys(m.Keys) == done + SortedKeys(rest)
    requires out == sink + ValuesAt(m, done)
    ensures SortedKeys(m.Keys) == (done + [k]) + SortedKeys(rest - {k})
    ensures out + [m[k]] == sink + ValuesAt(m, done + [k])
  {
    var t := SortedKeys(rest - {k});
    SortedKeysFirst(rest, k);
    assert done + ([k] + t) == (done + [k]) + t;
    ValuesAtSnoc(m, done, k);
    var v := ValuesAt(m, done);
    assert (sink + v) + [m[k]] == sink + (v + [m[k]]);
  }

  /**
   * The loop of the `funcs`/`blocks`/`edges` visitors: from `begin()` to
   * `end()`, write each value through the output iterator and advance it.
   * The iterator is the sequence it writes into; `sink` is what it held.
   */
  method EmitInOrder<V>(m: map<nat, V>, sink: seq<V>) returns (out: seq<V>)
    ensures out == sink + ValuesInOrder(m)
  {
    out := sink;
    var rest := m.Keys;
    ghost var done: seq<nat> := [];
    assert SortedKeys(m.Keys) == done + SortedKeys(rest);
    while rest != {}
      invariant rest <= m.Keys
      invariant forall k :: k in done ==> k in m
      invariant SortedKeys(m.Keys) == done + SortedKeys(rest)
      invariant out == sink + ValuesAt(m, done)
      decreases rest
    {
      assert Least(rest) in rest && forall j :: j in rest ==> Least(rest) <= j;
      var k :| k in rest && forall j :: j in rest ==> k <= j;
      EmitStep(m, sink, out, done, rest, k);
      out := out + [m[k]];
      done := done + [k];
      rest := rest - {k};
    }
    assert done == SortedKeys(m.Keys);
  }

  // ---------------------------------------------------------------------------
  // Store operations

  /** The outcome of a lookup: the wrapper returned (none for a null pointer)
      and the store afterwards. */
  datatype Lookup<V> = Lookup(found: Option<V>, store: map<nat, V>)

  /**
   * `get*(key, create)`: the cached wrapper when there is one; otherwise, when
   * creating, the wrapper `made` by the CFG maker, inserted and returned;
   * otherwise none.
   */
  function Get<V>(m: map<nat, V>, key: nat, made: V, create: bool): (r: Lookup<V>)
    ensures r.found.Some? <==> key in m || create
    ensures r.found.Some? ==> key in r.store && r.store[key] == r.found.value
    ensures key in m ==> r.found == Some(m[key])
    ensures key !in m && create ==> r.found == Some(made) && r.store == m[key := made]
    ensures key !in m && !create ==> r.store == m
    ensures r.store.Keys == (if r.found.Some? then m.Keys + {key} else m.Keys)
    ensures forall k :: k in m ==> r.store[k] == m[k]
  {
    if key in m then Lookup(Some(m[key]), m)
    else if create then Lookup(Some(made), m[key := made])
    else Lookup(None, m)
  }

  /** Once a lookup has returned a wrapper, asking again returns the same one
      and leaves the store as it was, whatever the second call would make. */
  lemma GetIsIdempotent<V>(m: map<nat, V>, key: nat, made: V, create: bool, made2: V, create2: bool)
    requires Get(m, key, made, create).found.Some?
    ensures var first := Get(m, key, made, create);
            Get(first.store, key, made2, create2) == first
  {
  }

  /**
   * The effect of `createFuncs`/`createBlocks`/`createEdges`: every entity the
   * parse layer has discovered (`found`, with the wrapper the CFG maker built
   * for it) gets an entry unless it already has one; existing entries stay.
   */
  function Materialise<V>(m: map<nat, V>, found: map<nat, V>): (r: map<nat, V>)
    ensures r.Keys == m.Keys + found.Keys
    ensures forall k :: k in m ==> r[k] == m[k]
    ensures forall k :: k in found && k !in m ==> r[k] == found[k]
  {
    map k | k in m.Keys + found.Keys :: if k in m then m[k] else found[k]
  }

  /** Materialising twice is materialising once, so two visits see the same
      wrappers. */
  lemma MaterialiseIsIdempotent<V>(m: map<nat, V>, found: map<nat, V>)
    ensures Materialise(Materialise(m, found), found) == Materialise(m, found)
    ensures ValuesInOrder(Materialise(Materialise(m, found), found)) == ValuesInOrder(Materialise(m, found))
  {
    var once := Materialise(m, found);
    var twice := Materialise(once, found);
    assert twice.Keys == once.Keys;
    assert forall k :: k in twice ==> twice[k] == once[k];
  }

  /** Materialising keeps every store recorded under its own entities. */
  lemma MaterialiseKeepsKeyed(fm: map<nat, PatchFunction>, ff: map<nat, PatchFunction>,
                              bm: map<nat, PatchBlock>, bf: map<nat, PatchBlock>,
                              em: map<nat, PatchEdge>, ef: map<nat, PatchEdge>)
    requires FuncsKeyed(fm) && FuncsKeyed(ff)
    requires BlocksKeyed(bm) && BlocksKeyed(bf)
    requires EdgesKeyed(em) && EdgesKeyed(ef)
    ensures FuncsKeyed(Materialise(fm, ff))
    ensures BlocksKeyed(Materialise(bm, bf))
    ensures EdgesKeyed(Materialise(em, ef))
  {
  }

  // ---------------------------------------------------------------------------
  // The object

  class PatchObject {
    var co: nat
    var codeBase: nat
    var addrSpace: Option<nat>
    var funcs: map<nat, PatchFunction>
    var blocks: map<nat, PatchBlock>
    var edges: map<nat, PatchEdge>
    var cfgMaker: Option<nat>
    var cb: Option<nat>

    /** Each wrapper is stored under the static entity it wraps, so a static
        function, block or edge has at most one wrapper in this object. */
    ghost predicate Valid()
      reads this
    {
      FuncsKeyed(funcs) && BlocksKeyed(blocks) && EdgesKeyed(edges)
    }

    /** A store bound to code object `o` at base `a`; nothing is materialised. */
    constructor(o: nat, a: nat, cm: Option<nat>, cb: Option<nat> := None)
      ensures Valid()
      ensures co == o && codeBase == a && cfgMaker == cm && this.cb == cb
      ensures addrSpace == None
      ensures funcs == map[] && blocks == map[] && edges == map[]
    {
      co, codeBase, addrSpace, cfgMaker, this.cb := o, a, None, cm, cb;
      funcs, blocks, edges := map[], map[], map[];
    }

    /** Everything but the three stores: code object, base, address space,
        CFG maker and callback. */
    ghost function Handles(): (nat, nat, Option<nat>, Option<nat>, Option<nat>)
      reads this
    {
      (co, codeBase, addrSpace, cfgMaker, cb)
    }

    function CodeBase(): (a: nat)
      reads this
      ensures a == codeBase
    {
      codeBase
    }

    function Co(): (o: nat)
      reads this
      ensures o == co
    {
      co
    }

    function AddrSpace(): (s: Option<nat>)
      reads this
      ensures s == addrSpace
    {
      addrSpace
    }

    function Cb(): (c: Option<nat>)
      reads this
      ensures c == cb
    {
      cb
    }

    /** Re-parents the object into another address space. */
    method SetAddrSpace(s: nat)
      modifies this
      ensures addrSpace == Some(s)
      ensures co == old(co) && codeBase == old(codeBase) && cfgMaker == old(cfgMaker) && cb == old(cb)
      ensures funcs == old(funcs) && blocks == old(blocks) && edges == old(edges)
    {
      addrSpace := Some(s);
    }

    // -------------------------------------------------------------------------
    // Functions

    /** `getFunc(f, create = true)`; `made` is the handle of the wrapper the
        CFG maker would build. */
    method GetFunc(f: nat, made: nat, create: bool := true) returns (r: Option<PatchFunction>)
      requires Valid()
      modifies this
      ensures Valid()
      ensures var l := Get(old(funcs), f, PatchFunction(made, f), create);
              r == l.found && funcs == l.store
      ensures r.Some? ==> r.value.func == f
      ensures blocks == old(blocks) && edges == old(edges) && Handles() == old(Handles())
    {
      var l := Get(funcs, f, PatchFunction(made, f), create);
      funcs := l.store;
      r := l.found;
    }

    /** `addFunc(f)`: records `f` under the function it wraps. */
    method AddFunc(f: PatchFunction)
      requires Valid()
      modifies this
      ensures Valid()
      ensures funcs == old(funcs)[f.func := f]
      ensures blocks == old(blocks) && edges == old(edges) && Handles() == old(Handles())
    {
      funcs := funcs[f.func := f];
    }

    /** `removeFunc(ParseAPI::Function *)`: drops the entry of `f`, if any. */
    method RemoveFuncKey(f: nat)
      requires Valid()
      modifies this
      ensures Valid()
      ensures funcs == old(funcs) - {f}
      ensures blocks == old(blocks) && edges == old(edges) && Handles() == old(Handles())
    {
      funcs := funcs - {f};
    }

    /** `removeFunc(PatchFunction *)`: drops the entry of the function it wraps. */
    method RemoveFunc(f: PatchFunction)
      requires Valid()
      modifies this
      ensures Valid()
      ensures funcs == old(funcs) - {f.func}
      ensures blocks == old(blocks) && edges == old(edges) && Handles() == old(Handles())
    {
      RemoveFuncKey(f.func);
    }

    /** `createFuncs()`, with the wrappers for the discovered functions given. */
    method CreateFuncs(found: map<nat, PatchFunction>)
      requires Valid() && FuncsKeyed(found)
      modifies this
      ensures Valid()
      ensures funcs == Materialise(old(funcs), found)
      ensures blocks == old(blocks) && edges == old(edges) && Handles() == old(Handles())
    {
      funcs := Materialise(funcs, found);
    }

    /** `funcs(iter)`: materialise, then write every function wrapper through
        the iterator in ascending key order. */
    method Funcs(found: map<nat, PatchFunction>, sink: seq<PatchFunction>) returns (out: seq<PatchFunction>)
      requires Valid() && FuncsKeyed(found)
      modifies this
      ensures Valid()
      ensures funcs == Materialise(old(funcs), found)
      ensures out == sink + ValuesInOrder(funcs)
      ensures blocks == old(blocks) && edges == old(edges) && Handles() == old(Handles())
    {
      CreateFuncs(found);
      out := EmitInOrder(funcs, sink);
    }

    // -------------------------------------------------------------------------
    // Blocks

    /** `getBlock(b, create = true)`. */
    method GetBlock(b: nat, made: nat, create: bool := true) returns (r: Option<PatchBlock>)
      requires Valid()
      modifies this
      ensures Valid()
      ensures var l := Get(old(blocks), b, PatchBlock(made, b), create);
              r == l.found && blocks == l.store
      ensures r.Some? ==> r.value.block == b
      ensures funcs == old(funcs) && edges == old(edges) && Handles() == old(Handles())
    {
      var l := Get(blocks, b, PatchBlock(made, b), create);
      blocks := l.store;
      r := l.found;
    }

    /** `addBlock(b)`. */
    method AddBlock(b: PatchBlock)
      requires Valid()
      modifies this
      ensures Valid()
      ensures blocks == old(blocks)[b.block := b]
      ensures funcs == old(funcs) && edges == old(edges) && Handles() == old(Handles())
    {
      blocks := blocks[b.block := b];
    }

    /** `removeBlock(ParseAPI::Block *)`. */
    method RemoveBlockKey(b: nat)
      requires Valid()
      modifies this
      ensures Valid()
      ensures blocks == old(blocks) - {b}
      ensures funcs == old(funcs) && edges == old(edges) && Handles() == old(Handles())
    {
      blocks := blocks - {b};
    }

    /** `removeBlock(PatchBlock *)`. */
    method RemoveBlock(b: PatchBlock)
      requires Valid()
      modifies this
      ensures Valid()
      ensures blocks == old(blocks) - {b.block}
      ensures funcs == old(funcs) && edges == old(edges) && Handles() == old(Handles())
    {
      RemoveBlockKey(b.block);
    }

    /** `createBlocks()`, with the wrappers for the discovered blocks given. */
    method CreateBlocks(found: map<nat, PatchBlock>)
      requires Valid() && BlocksKeyed(found)
      modifies this
      ensures Valid()
      ensures blocks == Materialise(old(blocks), found)
      ensures funcs == old(funcs) && edges == old(edges) && Handles() == old(Handles())
    {
      blocks := Materialise(blocks, found);
    }

    /** `blocks(iter)`. */
    method Blocks(found: map<nat, PatchBlock>, sink: seq<PatchBlock>) returns (out: seq<PatchBlock>)
      requires Valid() && BlocksKeyed(found)
      modifies this
      ensures Valid()
      ensures blocks == Materialise(old(blocks), found)
      ensures out == sink + ValuesInOrder(blocks)
      ensures funcs == old(funcs) && edges == old(edges) && Handles() == old(Handles())
    {
      CreateBlocks(found);
      out := EmitInOrder(blocks, sink);
    }

    // -------------------------------------------------------------------------
    // Edges

    /** `getEdge(e, src = NULL, trg = NULL, create = true)`: a new edge keeps
        the endpoints it was asked for, absent ones included. */
    method GetEdge(e: nat, made: nat, src: Option<PatchBlock> := None, trg: Option<PatchBlock> := None,
                   create: bool := true) returns (r: Option<PatchEdge>)
      requires Valid()
      modifies this
      ensures Valid()
      ensures var l := Get(old(edges), e, PatchEdge(made, e, src, trg), create);
              r == l.found && edges == l.store
      ensures r.Some? ==> r.value.edge == e
      ensures funcs == old(funcs) && blocks == old(blocks) && Handles() == old(Handles())
    {
      var l := Get(edges, e, PatchEdge(made, e, src, trg), create);
      edges := l.store;
      r := l.found;
    }

    /** `addEdge(e)`. */
    method AddEdge(e: PatchEdge)
      requires Valid()
      modifies this
      ensures Valid()
      ensures edges == old(edges)[e.edge := e]
      ensures funcs == old(funcs) && blocks == old(blocks) && Handles() == old(Handles())
    {
      edges := edges[e.edge := e];
    }

    /** `removeEdge(ParseAPI::Edge *)`. */
    method RemoveEdgeKey(e: nat)
      requires Valid()
      modifies this
      ensures Valid()
      ensures edges == old(edges) - {e}
      ensures funcs == old(funcs) && blocks == old(blocks) && Handles() == old(Handles())
    {
      edges := edges - {e};
    }

    /** `removeEdge(PatchEdge *)`. */
    method RemoveEdge(e: PatchEdge)
      requires Valid()
      modifies this
      ensures Valid()
      ensures edges == old(edges) - {e.edge}
      ensures funcs == old(funcs) && blocks == old(blocks) && Handles() == old(Handles())
    {
      RemoveEdgeKey(e.edge);
    }

    /** `createEdges()`, with the wrappers for the discovered edges given. */
    method CreateEdges(found: map<nat, PatchEdge>)
      requires Valid() && EdgesKeyed(found)
      modifies this
      ensures Valid()
      ensures edges == Materialise(old(edges), found)
      ensures funcs == old(funcs) && blocks == old(blocks) && Handles() == old(Handles())
    {
      edges := Materialise(edges, found);
    }

    /** `edges(iter)`. */
    method Edges(found: map<nat, PatchEdge>, sink: seq<PatchEdge>) returns (out: seq<PatchEdge>)
      requires Valid() && EdgesKeyed(found)
      modifies this
      ensures Valid()
      ensures edges == Materialise(old(edges), found)
      ensures out == sink + ValuesInOrder(edges)
      ensures funcs == old(funcs) && blocks == old(blocks) && Handles() == old(Handles())
    {
      CreateEdges(found);
      out := EmitInOrder(edges, sink);
    }
  }
}

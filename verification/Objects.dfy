/**
 What a program expects of an allocator: separate blocks, named by the program, that keep what is stored in them until
 they are given back. Both heaps are proved to behave like this over whole runs.
 */
module ObjectStore {
  /** A block as the program sees it: the size asked for, and the words stored so far, by offset. */
  datatype Object = Object(size: nat, words: map<nat, nat>)

  type Objects = map<nat, Object>

  datatype Request =
    | Acquire(id: nat, size: nat, align: nat)
    | Release(id: nat)
    | Resize(id: nat, size: nat)
    | Store(id: nat, offset: nat, value: nat)
    | Load(id: nat, offset: nat)

  datatype Reply = Granted | Refused | Done | Word(value: nat) | Skipped

  predicate InBounds(size: nat, offset: nat) {
    offset % 4 == 0 && offset + 4 <= size
  }

  function Fresh(size: nat): Object {
    Object(size, map[])
  }

  /** The words that both sizes have room for are kept. */
  function Resized(x: Object, size: nat): Object {
    Object(size, map o | o in x.words && o + 4 <= size :: x.words[o])
  }

  function Stored(x: Object, offset: nat, value: nat): Object {
    Object(x.size, x.words[offset := value])
  }

  ghost predicate AcquireActs(objs: Objects, id: nat, size: nat, a: Reply, objs': Objects) {
    || (a == Granted && size > 0 && objs' == objs[id := Fresh(size)])
    || (a == Refused && objs' == objs)
  }

  /**
   What a request does. A request for a block that the program does not have, or beyond its size, is not made. A load
   of a word that was never stored may answer anything.
   */
  ghost predicate Acts(objs: Objects, r: Request, a: Reply, objs': Objects) {
    match r
    case Acquire(id, size, _) =>
      if id in objs then a == Skipped && objs' == objs else AcquireActs(objs, id, size, a, objs')
    case Release(id) =>
      if id in objs then a == Done && objs' == objs - {id} else a == Skipped && objs' == objs
    case Resize(id, size) =>
      if id !in objs then AcquireActs(objs, id, size, a, objs')
      else if size == 0 then a == Done && objs' == objs - {id}
      else
        || (a == Granted && objs' == objs[id := Resized(objs[id], size)])
        || (a == Refused && size > objs[id].size && objs' == objs)
    case Store(id, offset, value) =>
      if id in objs && InBounds(objs[id].size, offset) then
        a == Done && objs' == objs[id := Stored(objs[id], offset, value)]
      else a == Skipped && objs' == objs
    case Load(id, offset) =>
      && objs' == objs
      && if id in objs && InBounds(objs[id].size, offset) then
           a.Word? && (offset in objs[id].words ==> a.value == objs[id].words[offset])
         else a == Skipped
  }

  /** The replies are those of separate objects, `objs` at first and `objs'` in the end. */
  ghost predicate Behaves(objs: Objects, rs: seq<Request>, replies: seq<Reply>, objs': Objects)
    decreases |rs|
  {
    |replies| == |rs| &&
    if rs == [] then objs' == objs
    else exists m :: Acts(objs, rs[0], replies[0], m) && Behaves(m, rs[1..], replies[1..], objs')
  }

  // ---- where the objects are ----

  /** Where a block is, and the size and the alignment asked for. */
  datatype Pointer = Pointer(addr: nat, size: nat, align: nat)

  type Pointers = map<nat, Pointer>

  ghost predicate Distinct(ptrs: Pointers) {
    forall x, y | x in ptrs && y in ptrs && x != y :: ptrs[x].addr != ptrs[y].addr
  }

  /** Every block is some pointer's. */
  ghost predicate Covered(blocks: set<nat>, ptrs: Pointers) {
    forall b | b in blocks :: exists x :: x in ptrs && ptrs[x].addr == b
  }

  lemma GoneDistinct(ptrs: Pointers, x: nat)
    requires Distinct(ptrs) && x in ptrs
    ensures Distinct(ptrs - {x}) && forall y | y in ptrs - {x} :: ptrs[y].addr != ptrs[x].addr
  {
  }

  lemma GoneCovered(blocks: set<nat>, ptrs: Pointers, x: nat)
    requires Covered(blocks, ptrs) && x in ptrs
    ensures Covered(blocks - {ptrs[x].addr}, ptrs - {x})
  {
    forall b | b in blocks - {ptrs[x].addr}
      ensures exists y :: y in ptrs - {x} && (ptrs - {x})[y].addr == b
    {
      var y :| y in ptrs && ptrs[y].addr == b;
      assert y in ptrs - {x};
    }
  }

  lemma NewDistinct(blocks: set<nat>, ptrs: Pointers, x: nat, p: Pointer)
    requires Distinct(ptrs) && p.addr !in blocks && forall y | y in ptrs :: ptrs[y].addr in blocks
    ensures Distinct(ptrs[x := p])
  {
  }

  lemma NewCovered(blocks: set<nat>, ptrs: Pointers, x: nat, p: Pointer)
    requires Covered(blocks, ptrs) && x !in ptrs
    ensures Covered(blocks + {p.addr}, ptrs[x := p])
  {
    var ptrs' := ptrs[x := p];
    forall b | b in blocks + {p.addr}
      ensures exists y :: y in ptrs' && ptrs'[y].addr == b
    {
      if b == p.addr {
        assert ptrs'[x].addr == b;
      } else {
        var y :| y in ptrs && ptrs[y].addr == b;
        assert ptrs'[y].addr == b;
      }
    }
  }
}

/**
 * The texturing state of a GL context: the two default objects, the
 * registry of named objects, the two bindings, the name counter, the
 * enables and dirty flags, and the last-error slot; and the operations
 * that create, bind, generate, delete, configure, upload into and load
 * texture objects.
 *
 * Objects live in a heap keyed by allocation, so that pointer identity
 * (an object bound to a target, an object freed while still bound) can be
 * stated; the registry maps names to allocations.
 */
module Context {
  import opened Gl
  import opened Arith
  import opened Formats
  import opened Texture
  import opened Planner

  /** A pointer to a texture object: one of the two embedded defaults, or an allocation. */
  datatype ObjRef = Default1D | Default2D | Heap(id: nat)

  datatype Ctx = Ctx(
    default1d: TexObject,
    default2d: TexObject,
    heap: map<nat, TexObject>,   // allocated objects not yet freed
    names: map<nat, nat>,        // state.texture_objects: name to allocation
    nextAlloc: nat,              // the allocation the next calloc returns
    bound1d: ObjRef,             // state.texture_1d_object
    bound2d: ObjRef,             // state.texture_2d_object
    nextTexName: nat,
    enabled1d: bool,             // GL_TEXTURE_1D enabled
    enabled2d: bool,             // GL_TEXTURE_2D enabled
    textureDirty: bool,
    rendermodeDirty: bool,
    error: Option<GlError>)

  /** What an operation that may hit a fatal assertion leaves behind. */
  datatype Outcome = Continue(ctx: Ctx) | Aborted(reason: FatalReason)

  /**
   * gl_set_error: record the error in the error slot, replacing any error
   * recorded before (the last error wins).
   */
  function SetError(c: Ctx, e: GlError): (r: Ctx)
    ensures r.error == Some(e)
    ensures r.(error := c.error) == c
  {
    c.(error := Some(e))
  }

  /** The pointer designates an object that has not been freed. */
  predicate Live(c: Ctx, r: ObjRef) {
    r.Heap? ==> r.id in c.heap
  }

  function Deref(c: Ctx, r: ObjRef): TexObject
    requires Live(c, r)
  {
    match r
    case Default1D => c.default1d
    case Default2D => c.default2d
    case Heap(id) => c.heap[id]
  }

  /** Write an object back through its pointer. */
  function Store(c: Ctx, r: ObjRef, obj: TexObject): (o: Ctx)
    requires Live(c, r)
    ensures Live(o, r) && Deref(o, r) == obj
    ensures forall q :: Live(c, q) && q != r ==> Live(o, q) && Deref(o, q) == Deref(c, q)
    ensures o.heap.Keys == c.heap.Keys
    ensures o.(default1d := c.default1d, default2d := c.default2d, heap := c.heap) == c
  {
    match r
    case Default1D => c.(default1d := obj)
    case Default2D => c.(default2d := obj)
    case Heap(id) => c.(heap := c.heap[id := obj])
  }

  // ---- Well-formed contexts ----

  /** The dimensionality a pointer bound to `target` may carry: the target's, or none yet. */
  predicate BindableTo(obj: TexObject, target: int) {
    obj.dimensionality == 0 || obj.dimensionality == target
  }

  predicate BindingsLive(c: Ctx) {
    Live(c, c.bound1d) && Live(c, c.bound2d)
  }

  /** Every object, default or allocated, is well formed. */
  predicate ObjectsWf(c: Ctx) {
    && ObjectWf(c.default1d) && ObjectWf(c.default2d)
    && (forall id {:trigger ObjectWf(c.heap[id])} :: id in c.heap ==> ObjectWf(c.heap[id]))
  }

  /** The defaults keep their targets, allocations lie below the next one and carry no foreign dimensionality. */
  predicate HeapWf(c: Ctx) {
    && c.default1d.dimensionality == TEXTURE_1D && c.default2d.dimensionality == TEXTURE_2D
    && (forall id :: id in c.heap ==> id < c.nextAlloc && c.heap[id].dimensionality in {0, TEXTURE_1D, TEXTURE_2D})
  }

  /** Names are nonzero and resolve to live allocations, no two names to the same one; the counter starts at 1. */
  predicate RegistryWf(c: Ctx) {
    && (forall name :: name in c.names ==> name != 0 && c.names[name] in c.heap)
    && (forall a, b :: a in c.names && b in c.names && c.names[a] == c.names[b] ==> a == b)
    && c.nextTexName >= 1
  }

  /** Each binding points at a live object of its target: its own default, or an allocation bindable to it. */
  predicate BindingsWf(c: Ctx) {
    && c.bound1d != Default2D && c.bound2d != Default1D
    && BindingsLive(c)
    && BindableTo(Deref(c, c.bound1d), TEXTURE_1D)
    && BindableTo(Deref(c, c.bound2d), TEXTURE_2D)
  }

  /** The context invariant. */
  predicate Wf(c: Ctx) {
    ObjectsWf(c) && HeapWf(c) && RegistryWf(c) && BindingsWf(c)
  }

  /** Storing a well-formed object under any key keeps the objects well formed. */
  lemma ObjectsWfStore(c: Ctx, r: Ctx, key: nat, obj: TexObject)
    requires ObjectsWf(c) && ObjectWf(obj)
    requires r.default1d == c.default1d && r.default2d == c.default2d && r.heap == c.heap[key := obj]
    ensures ObjectsWf(r)
  {
    forall id | id in r.heap
      ensures ObjectWf(r.heap[id])
    {
      if id != key {
        assert r.heap[id] == c.heap[id];
      }
    }
  }

  /** Freeing allocations keeps the objects well formed. */
  lemma ObjectsWfFree(c: Ctx, r: Ctx)
    requires ObjectsWf(c)
    requires r.default1d == c.default1d && r.default2d == c.default2d
    requires r.heap.Keys <= c.heap.Keys && forall id :: id in r.heap ==> r.heap[id] == c.heap[id]
    ensures ObjectsWf(r)
  {
  }

  /** Freeing allocations keeps the heap well formed. */
  lemma HeapWfFree(c: Ctx, r: Ctx)
    requires HeapWf(c)
    requires r.default1d == c.default1d && r.default2d == c.default2d && r.nextAlloc == c.nextAlloc
    requires r.heap.Keys <= c.heap.Keys && forall id :: id in r.heap ==> r.heap[id] == c.heap[id]
    ensures HeapWf(r)
  {
  }

  /** The bindings stay well formed when the objects they point at are kept. */
  lemma BindingsWfFrame(c: Ctx, r: Ctx)
    requires BindingsWf(c) && r.bound1d == c.bound1d && r.bound2d == c.bound2d
    requires Live(r, c.bound1d) && Deref(r, c.bound1d) == Deref(c, c.bound1d)
    requires Live(r, c.bound2d) && Deref(r, c.bound2d) == Deref(c, c.bound2d)
    ensures BindingsWf(r)
  {
  }

  // ---- Initialisation ----

  /**
   * gl_texture_init: fresh defaults tagged with their targets, an empty
   * registry, names starting at 1, and both targets bound to their
   * defaults.  Enables, dirty flags and the error slot belong to the rest
   * of the context and are left as they are.
   */
  function TextureInit(c: Ctx): (r: Ctx)
    ensures r.default1d == InitObject(TEXTURE_1D) && r.default2d == InitObject(TEXTURE_2D)
    ensures r.names == map[] && r.nextTexName == 1
    ensures r.bound1d == Default1D && r.bound2d == Default2D
    ensures r.enabled1d == c.enabled1d && r.enabled2d == c.enabled2d && r.error == c.error
    ensures r.textureDirty == c.textureDirty && r.rendermodeDirty == c.rendermodeDirty
  {
    c.(default1d := InitObject(TEXTURE_1D), default2d := InitObject(TEXTURE_2D),
       heap := map[], names := map[], nextTexName := 1,
       bound1d := Default1D, bound2d := Default2D)
  }

  lemma TextureInitWf(c: Ctx)
    ensures Wf(TextureInit(c))
  {
    InitObjectWf(TEXTURE_1D);
    InitObjectWf(TEXTURE_2D);
  }

  // ---- Creation and binding ----

  /** calloc and obj_map_set: a new allocation holding `obj`, registered under `key`. */
  function Allocate(c: Ctx, key: nat, obj: TexObject): (r: (Ctx, nat))
    ensures r.1 == c.nextAlloc && r.0.nextAlloc == c.nextAlloc + 1
    ensures r.0.heap == c.heap[r.1 := obj] && r.0.names == c.names[key := r.1]
    ensures r.0.(heap := c.heap, names := c.names, nextAlloc := c.nextAlloc) == c
  {
    var id := c.nextAlloc;
    (c.(heap := c.heap[id := obj], names := c.names[key := id], nextAlloc := id + 1), id)
  }

  /** A fresh allocation under a nonzero key keeps the heap and the registry well formed and every live pointer's target. */
  lemma AllocatePreservesWf(c: Ctx, key: nat, obj: TexObject)
    requires HeapWf(c) && RegistryWf(c) && key != 0
    requires obj.dimensionality in {0, TEXTURE_1D, TEXTURE_2D}
    ensures HeapWf(Allocate(c, key, obj).0) && RegistryWf(Allocate(c, key, obj).0)
    ensures forall q :: Live(c, q) ==> Live(Allocate(c, key, obj).0, q)
                                       && Deref(Allocate(c, key, obj).0, q) == Deref(c, q)
  {
    var r := Allocate(c, key, obj).0;
    assert c.nextAlloc !in c.heap;
    forall id | id in r.heap
      ensures id < r.nextAlloc && r.heap[id].dimensionality in {0, TEXTURE_1D, TEXTURE_2D}
    {
      if id != c.nextAlloc {
        assert r.heap[id] == c.heap[id];
      }
    }
    forall a, b | a in r.names && b in r.names && r.names[a] == r.names[b]
      ensures a == b
    {
      if a != key && b != key {
        assert r.names[a] == c.names[a] && r.names[b] == c.names[b];
      } else if a != key {
        assert r.names[a] == c.names[a] && c.names[a] in c.heap;
      } else if b != key {
        assert r.names[b] == c.names[b] && c.names[b] in c.heap;
      }
    }
  }

  /** ... and, when the object is well formed, the objects too. */
  lemma AllocatePreservesObjectsWf(c: Ctx, key: nat, obj: TexObject)
    requires ObjectsWf(c) && ObjectWf(obj)
    ensures ObjectsWf(Allocate(c, key, obj).0)
  {
    ObjectsWfStore(c, Allocate(c, key, obj).0, c.nextAlloc, obj);
  }

  /**
   * gl_create_texture as written: a fresh default object with no
   * dimensionality, registered under the next name to be generated,
   * whatever name it was asked for.
   */
  function CreateTextureAsWritten(c: Ctx, name: nat): (r: (Ctx, nat))
    ensures r.0.heap == c.heap[r.1 := InitObject(0)] && r.1 == c.nextAlloc && r.0.nextAlloc == c.nextAlloc + 1
    ensures r.0.names == c.names[c.nextTexName := r.1]
    ensures r.0.(heap := c.heap, names := c.names, nextAlloc := c.nextAlloc) == c
  {
    Allocate(c, c.nextTexName, InitObject(0))
  }

  /** gl_create_texture registering the object under the name it is created for. */
  function CreateTexture(c: Ctx, name: nat): (r: (Ctx, nat))
    ensures r.0.heap == c.heap[r.1 := InitObject(0)] && r.1 == c.nextAlloc && r.0.nextAlloc == c.nextAlloc + 1
    ensures r.0.names == c.names[name := r.1]
    ensures r.0.(heap := c.heap, names := c.names, nextAlloc := c.nextAlloc) == c
  {
    Allocate(c, name, InitObject(0))
  }

  /** The two agree when the object is created for the next name, as glGenTextures does. */
  lemma CreateTextureAgreesOnNextName(c: Ctx)
    ensures CreateTextureAsWritten(c, c.nextTexName) == CreateTexture(c, c.nextTexName)
  {
  }

  /** obj_map_get: the object registered under a name, if any. */
  function Lookup(c: Ctx, name: nat): (r: Option<nat>)
    ensures r.Some? <==> name in c.names && c.names[name] in c.heap
    ensures r.Some? ==> r.value == c.names[name]
  {
    if name in c.names && c.names[name] in c.heap then Some(c.names[name]) else None
  }

  /** Point a target at an object; nothing else changes. */
  function BindTarget(c: Ctx, target: int, r: ObjRef): (o: Ctx)
    ensures (if target == TEXTURE_1D then o.bound1d else o.bound2d) == r
    ensures o.(bound1d := c.bound1d, bound2d := c.bound2d) == c
    ensures target == TEXTURE_1D ==> o.bound2d == c.bound2d
    ensures target != TEXTURE_1D ==> o.bound1d == c.bound1d
  {
    if target == TEXTURE_1D then c.(bound1d := r) else c.(bound2d := r)
  }

  /**
   * glBindTexture with the given creation function: an unknown target is
   * INVALID_ENUM; name 0 selects the target's default; a known name whose
   * object already has the other dimensionality is INVALID_OPERATION; an
   * unknown name creates an object of the target's dimensionality.
   */
  function Bind(c: Ctx, target: int, texture: nat, registerUnderName: bool): (r: Ctx)
  {
    if target != TEXTURE_1D && target != TEXTURE_2D then SetError(c, InvalidEnum)
    else if texture == 0 then BindTarget(c, target, if target == TEXTURE_1D then Default1D else Default2D)
    else match Lookup(c, texture)
      case Some(id) =>
        if c.heap[id].dimensionality != 0 && c.heap[id].dimensionality != target then SetError(c, InvalidOperation)
        else BindTarget(c, target, Heap(id))
      case None =>
        var created := if registerUnderName then CreateTexture(c, texture) else CreateTextureAsWritten(c, texture);
        var c1 := created.0.(heap := created.0.heap[created.1 := InitObject(target)]);
        BindTarget(c1, target, Heap(created.1))
  }

  /** glBindTexture as written, creating through gl_create_texture as written. */
  function BindTextureAsWritten(c: Ctx, target: int, texture: nat): (r: Ctx)
    ensures target != TEXTURE_1D && target != TEXTURE_2D ==> r == SetError(c, InvalidEnum)
    ensures target == TEXTURE_1D && texture == 0 ==> r == c.(bound1d := Default1D)
    ensures target == TEXTURE_2D && texture == 0 ==> r == c.(bound2d := Default2D)
    ensures ((target == TEXTURE_1D || target == TEXTURE_2D) && texture != 0 && Lookup(c, texture).Some?
             && !BindableTo(c.heap[Lookup(c, texture).value], target)) ==> r == SetError(c, InvalidOperation)
    ensures ((target == TEXTURE_1D || target == TEXTURE_2D) && texture != 0 && Lookup(c, texture).Some?
             && BindableTo(c.heap[Lookup(c, texture).value], target)) ==>
              r == BindTarget(c, target, Heap(Lookup(c, texture).value))
    ensures (target == TEXTURE_1D || target == TEXTURE_2D) && texture != 0 && Lookup(c, texture).None? ==>
              && r.names == c.names[c.nextTexName := c.nextAlloc]
              && r.heap == c.heap[c.nextAlloc := InitObject(target)] && r.nextAlloc == c.nextAlloc + 1
              && (if target == TEXTURE_1D then r.bound1d else r.bound2d) == Heap(c.nextAlloc)
              && (if target == TEXTURE_1D then r.bound2d == c.bound2d else r.bound1d == c.bound1d)
              && r.error == c.error
  {
    Bind(c, target, texture, false)
  }

  /** glBindTexture registering a newly created object under the name bound. */
  function BindTexture(c: Ctx, target: int, texture: nat): (r: Ctx)
    ensures target != TEXTURE_1D && target != TEXTURE_2D ==> r == SetError(c, InvalidEnum)
    ensures target == TEXTURE_1D && texture == 0 ==> r == c.(bound1d := Default1D)
    ensures target == TEXTURE_2D && texture == 0 ==> r == c.(bound2d := Default2D)
    ensures ((target == TEXTURE_1D || target == TEXTURE_2D) && texture != 0 && Lookup(c, texture).Some?
             && !BindableTo(c.heap[Lookup(c, texture).value], target)) ==> r == SetError(c, InvalidOperation)
    ensures ((target == TEXTURE_1D || target == TEXTURE_2D) && texture != 0
             && (Lookup(c, texture).None? || BindableTo(c.heap[Lookup(c, texture).value], target))) ==>
              && Lookup(r, texture).Some?
              && (if target == TEXTURE_1D then r.bound1d else r.bound2d) == Heap(Lookup(r, texture).value)
              && (if target == TEXTURE_1D then r.bound2d == c.bound2d else r.bound1d == c.bound1d)
              && r.error == c.error
    ensures ((target == TEXTURE_1D || target == TEXTURE_2D) && texture != 0 && Lookup(c, texture).Some?
             && BindableTo(c.heap[Lookup(c, texture).value], target)) ==>
              r == BindTarget(c, target, Heap(Lookup(c, texture).value))
    ensures (target == TEXTURE_1D || target == TEXTURE_2D) && texture != 0 && Lookup(c, texture).None? ==>
              && r.names == c.names[texture := c.nextAlloc]
              && r.heap == c.heap[c.nextAlloc := InitObject(target)] && r.nextAlloc == c.nextAlloc + 1
  {
    Bind(c, target, texture, true)
  }

  /** The object a bind on an unknown name installs, and the key it is registered under. */
  lemma BindCreates(c: Ctx, target: int, texture: nat, registerUnderName: bool)
    requires target == TEXTURE_1D || target == TEXTURE_2D
    requires texture != 0 && Lookup(c, texture).None?
    ensures var key := if registerUnderName then texture else c.nextTexName;
            Bind(c, target, texture, registerUnderName)
              == BindTarget(Allocate(c, key, InitObject(target)).0, target, Heap(c.nextAlloc))
  {
    var key := if registerUnderName then texture else c.nextTexName;
    var created := Allocate(c, key, InitObject(0));
    assert created.0.heap[created.1 := InitObject(target)] == c.heap[c.nextAlloc := InitObject(target)];
  }

  /** Recording an error touches nothing the invariant reads. */
  lemma SetErrorPreservesWf(c: Ctx, e: GlError)
    requires Wf(c)
    ensures Wf(SetError(c, e))
  {
  }

  /** Pointing a target at a live object bindable to it keeps the context well formed. */
  lemma BindTargetPreservesWf(c: Ctx, target: int, r: ObjRef)
    requires Wf(c)
    requires target == TEXTURE_1D || target == TEXTURE_2D
    requires Live(c, r) && BindableTo(Deref(c, r), target)
    requires r != (if target == TEXTURE_1D then Default2D else Default1D)
    ensures Wf(BindTarget(c, target, r))
  {
  }

  /** Binding keeps the context well formed, as written or not. */
  lemma BindPreservesWf(c: Ctx, target: int, texture: nat, registerUnderName: bool)
    requires Wf(c)
    ensures Wf(Bind(c, target, texture, registerUnderName))
  {
    if target != TEXTURE_1D && target != TEXTURE_2D {
      SetErrorPreservesWf(c, InvalidEnum);
    } else if texture == 0 {
      BindTargetPreservesWf(c, target, if target == TEXTURE_1D then Default1D else Default2D);
    } else if Lookup(c, texture).Some? {
      var id := Lookup(c, texture).value;
      if !BindableTo(c.heap[id], target) {
        SetErrorPreservesWf(c, InvalidOperation);
      } else {
        BindTargetPreservesWf(c, target, Heap(id));
      }
    } else {
      BindCreatedPreservesWf(c, target, texture, registerUnderName);
    }
  }

  lemma BindCreatedPreservesWf(c: Ctx, target: int, texture: nat, registerUnderName: bool)
    requires Wf(c)
    requires (target == TEXTURE_1D || target == TEXTURE_2D) && texture != 0 && Lookup(c, texture).None?
    ensures Wf(Bind(c, target, texture, registerUnderName))
  {
    var key := if registerUnderName then texture else c.nextTexName;
    InitObjectWf(target);
    AllocatePreservesWf(c, key, InitObject(target));
    AllocatePreservesObjectsWf(c, key, InitObject(target));
    BindCreates(c, target, texture, registerUnderName);
    var c1 := Allocate(c, key, InitObject(target)).0;
    BindingsWfFrame(c, c1);
    BindTargetPreservesWf(c1, target, Heap(c.nextAlloc));
  }

  /** With names registered, binding the same name again changes nothing. */
  lemma BindTextureIsIdempotent(c: Ctx, target: int, texture: nat)
    requires c.nextAlloc !in c.heap
    ensures BindTexture(BindTexture(c, target, texture), target, texture) == BindTexture(c, target, texture)
  {
    BindIsIdempotent(c, target, texture);
  }

  lemma BindIsIdempotent(c: Ctx, target: int, texture: nat)
    requires c.nextAlloc !in c.heap
    ensures Bind(Bind(c, target, texture, true), target, texture, true) == Bind(c, target, texture, true)
  {
    if (target == TEXTURE_1D || target == TEXTURE_2D) && texture != 0 {
      if Lookup(c, texture).None? {
        BindCreatedIsFound(c, target, texture);
      } else {
        BindFoundIsStable(c, target, texture);
      }
    }
  }

  lemma BindCreatedIsFound(c: Ctx, target: int, texture: nat)
    requires c.nextAlloc !in c.heap
    requires (target == TEXTURE_1D || target == TEXTURE_2D) && texture != 0 && Lookup(c, texture).None?
    ensures Bind(Bind(c, target, texture, true), target, texture, true) == Bind(c, target, texture, true)
  {
    BindCreates(c, target, texture, true);
    var r := Bind(c, target, texture, true);
    assert Lookup(r, texture) == Some(c.nextAlloc);
    assert r.heap[c.nextAlloc] == InitObject(target);
  }

  lemma BindFoundIsStable(c: Ctx, target: int, texture: nat)
    requires (target == TEXTURE_1D || target == TEXTURE_2D) && texture != 0 && Lookup(c, texture).Some?
    ensures Bind(Bind(c, target, texture, true), target, texture, true) == Bind(c, target, texture, true)
  {
    var r := Bind(c, target, texture, true);
    assert r.names == c.names && r.heap == c.heap;
    assert Lookup(r, texture) == Lookup(c, texture);
  }

  /**
   * As written, binding a fresh name twice creates two objects: the first
   * is registered under the counter's name 1, not under 5, so the second
   * bind does not find it and binds another object in its place.
   */
  lemma BindTextureAsWrittenForgetsName(c: Ctx)
    ensures var c0 := TextureInit(c);
            var c1 := BindTextureAsWritten(c0, TEXTURE_2D, 5);
            var c2 := BindTextureAsWritten(c1, TEXTURE_2D, 5);
            && 5 !in c1.names && 1 in c1.names
            && c1.bound2d != c2.bound2d
            && BindTexture(BindTexture(c0, TEXTURE_2D, 5), TEXTURE_2D, 5) == BindTexture(c0, TEXTURE_2D, 5)
  {
    TextureInitWf(c);
    BindTextureIsIdempotent(TextureInit(c), TEXTURE_2D, 5);
  }

  // ---- Name generation ----

  /**
   * glGenTextures: n consecutive names from the counter, each registered to
   * a fresh object with no dimensionality yet.
   */
  function GenTextures(c: Ctx, n: nat): (r: (Ctx, seq<nat>))
    ensures |r.1| == n && forall i :: 0 <= i < n ==> r.1[i] == c.nextTexName + i
    ensures r.0.nextTexName == c.nextTexName + n && r.0.nextAlloc == c.nextAlloc + n
    ensures forall name :: c.nextTexName <= name < c.nextTexName + n ==>
              name in r.0.names && r.0.names[name] == c.nextAlloc + (name - c.nextTexName)
    ensures forall id :: c.nextAlloc <= id < c.nextAlloc + n ==> id in r.0.heap && r.0.heap[id] == InitObject(0)
    ensures forall name :: name in c.names && !(c.nextTexName <= name < c.nextTexName + n) ==>
              name in r.0.names && r.0.names[name] == c.names[name]
    ensures forall name :: name in r.0.names ==> name in c.names || c.nextTexName <= name < c.nextTexName + n
    ensures forall id :: id in c.heap && id < c.nextAlloc ==> id in r.0.heap && r.0.heap[id] == c.heap[id]
    ensures forall id :: id in r.0.heap ==> id in c.heap || c.nextAlloc <= id < c.nextAlloc + n
    ensures r.0.(heap := c.heap, names := c.names, nextAlloc := c.nextAlloc, nextTexName := c.nextTexName) == c
    decreases n
  {
    if n == 0 then (c, [])
    else
      var created := CreateTexture(c, c.nextTexName);
      var c1 := created.0.(nextTexName := c.nextTexName + 1);
      var rest := GenTextures(c1, n - 1);
      (rest.0, [c.nextTexName] + rest.1)
  }

  /** glGenTextures keeps the objects well formed: the old ones are kept and the new ones are fresh. */
  lemma GenTexturesPreservesObjectsWf(c: Ctx, n: nat)
    requires ObjectsWf(c) && HeapWf(c)
    ensures ObjectsWf(GenTextures(c, n).0)
  {
    var r := GenTextures(c, n).0;
    InitObjectWf(0);
    forall id | id in r.heap
      ensures ObjectWf(r.heap[id])
    {
      if id in c.heap {
        assert r.heap[id] == c.heap[id];
      }
    }
  }

  lemma GenTexturesPreservesHeapWf(c: Ctx, n: nat)
    requires HeapWf(c)
    ensures HeapWf(GenTextures(c, n).0)
  {
    var r := GenTextures(c, n).0;
    forall id | id in r.heap
      ensures id < r.nextAlloc && r.heap[id].dimensionality in {0, TEXTURE_1D, TEXTURE_2D}
    {
      if id in c.heap {
        assert r.heap[id] == c.heap[id];
      }
    }
  }

  /**
   * The generated names resolve to new allocations and every other name
   * keeps its own, so the registry stays injective.
   */
  lemma GenTexturesPreservesRegistryWf(c: Ctx, n: nat)
    requires HeapWf(c) && RegistryWf(c)
    ensures RegistryWf(GenTextures(c, n).0)
  {
    var r := GenTextures(c, n).0;
    forall a | a in r.names
      ensures a != 0 && r.names[a] in r.heap
      ensures c.nextTexName <= a < c.nextTexName + n ==> r.names[a] >= c.nextAlloc
      ensures !(c.nextTexName <= a < c.nextTexName + n) ==> r.names[a] == c.names[a] && r.names[a] < c.nextAlloc
    {
    }
  }

  /** glGenTextures keeps the context well formed. */
  lemma GenTexturesPreservesWf(c: Ctx, n: nat)
    requires Wf(c)
    ensures Wf(GenTextures(c, n).0)
  {
    var r := GenTextures(c, n).0;
    GenTexturesPreservesObjectsWf(c, n);
    GenTexturesPreservesHeapWf(c, n);
    GenTexturesPreservesRegistryWf(c, n);
    assert c.bound1d.Heap? ==> c.bound1d.id < c.nextAlloc;
    assert c.bound2d.Heap? ==> c.bound2d.id < c.nextAlloc;
    BindingsWfFrame(c, r);
  }

  // ---- Deletion ----

  /**
   * One name of glDeleteTextures: 0 and unknown names are skipped;
   * otherwise the name is removed from the registry, a target bound to its
   * object reverts to its default, and the object is freed.  As written the
   * second target is reverted only when the first was not.
   */
  function DeleteOne(c: Ctx, name: nat, asWritten: bool): (r: Ctx)
    ensures name == 0 || name !in c.names ==> r == c
    ensures name != 0 ==> r.names == c.names - {name}
  {
    if name == 0 || name !in c.names then c
    else
      var id := c.names[name];
      var c1 := c.(names := c.names - {name});
      var c2 := if c1.bound1d == Heap(id) then c1.(bound1d := Default1D) else c1;
      var c3 := if c1.bound2d == Heap(id) && !(asWritten && c1.bound1d == Heap(id)) then c2.(bound2d := Default2D) else c2;
      c3.(heap := c3.heap - {id})
  }

  /** glDeleteTextures over a list of names, one after the other. */
  function DeleteTexturesWith(c: Ctx, names: seq<nat>, asWritten: bool): Ctx
    decreases |names|
  {
    if |names| == 0 then c else DeleteTexturesWith(DeleteOne(c, names[0], asWritten), names[1..], asWritten)
  }

  function DeleteTexturesAsWritten(c: Ctx, names: seq<nat>): Ctx
  {
    DeleteTexturesWith(c, names, true)
  }

  function DeleteTextures(c: Ctx, names: seq<nat>): Ctx
  {
    DeleteTexturesWith(c, names, false)
  }

  /**
   * Deleting one name: the name leaves the registry and its object the
   * heap; no target stays bound to it; nothing else changes.
   */
  lemma DeleteOneReleases(c: Ctx, name: nat)
    requires name != 0 && name in c.names
    ensures var id := c.names[name];
            var r := DeleteOne(c, name, false);
            && r.names == c.names - {name} && r.heap == c.heap - {id}
            && r.bound1d == (if c.bound1d == Heap(id) then Default1D else c.bound1d)
            && r.bound2d == (if c.bound2d == Heap(id) then Default2D else c.bound2d)
            && r.bound1d != Heap(id) && r.bound2d != Heap(id)
            && r.(names := c.names, heap := c.heap, bound1d := c.bound1d, bound2d := c.bound2d) == c
  {
    var id := c.names[name];
    var b1 := if c.bound1d == Heap(id) then Default1D else c.bound1d;
    var b2 := if c.bound2d == Heap(id) then Default2D else c.bound2d;
    assert DeleteOne(c, name, false) == c.(names := c.names - {name}, bound1d := b1, bound2d := b2, heap := c.heap - {id});
  }

  /** Removing a name and its object keeps the registry well formed, since no other name shares the object. */
  lemma RegistryWfAfterRemove(c: Ctx, r: Ctx, name: nat)
    requires RegistryWf(c) && name in c.names
    requires r.names == c.names - {name} && r.heap == c.heap - {c.names[name]} && r.nextTexName == c.nextTexName
    ensures RegistryWf(r)
  {
    forall n | n in r.names
      ensures n != 0 && r.names[n] in r.heap
    {
      assert r.names[n] == c.names[n] && c.names[n] != c.names[name];
    }
  }

  /** Reverting every binding of a freed object to its default keeps the bindings well formed. */
  lemma BindingsWfAfterFree(c: Ctx, r: Ctx, id: nat)
    requires BindingsWf(c)
    requires c.default1d.dimensionality == TEXTURE_1D && c.default2d.dimensionality == TEXTURE_2D
    requires r.default1d == c.default1d && r.default2d == c.default2d && r.heap == c.heap - {id}
    requires r.bound1d == (if c.bound1d == Heap(id) then Default1D else c.bound1d)
    requires r.bound2d == (if c.bound2d == Heap(id) then Default2D else c.bound2d)
    ensures BindingsWf(r)
  {
  }

  lemma DeleteOnePreservesWf(c: Ctx, name: nat)
    requires Wf(c)
    ensures Wf(DeleteOne(c, name, false))
  {
    if name != 0 && name in c.names {
      var r := DeleteOne(c, name, false);
      DeleteOneReleases(c, name);
      ObjectsWfFree(c, r);
      HeapWfFree(c, r);
      RegistryWfAfterRemove(c, r, name);
      BindingsWfAfterFree(c, r, c.names[name]);
    }
  }

  /** Deleting every name of a list keeps the context well formed. */
  lemma {:induction false} DeleteTexturesPreservesWf(c: Ctx, names: seq<nat>)
    requires Wf(c)
    ensures Wf(DeleteTextures(c, names))
    decreases |names|
  {
    if |names| > 0 {
      DeleteOnePreservesWf(c, names[0]);
      DeleteTexturesPreservesWf(DeleteOne(c, names[0], false), names[1..]);
    }
  }

  /**
   * As written, an object bound to both targets and then deleted leaves the
   * 2D target pointing at the freed object: a name generated, bound to 1D
   * and to 2D, then deleted.  With both targets checked, the 2D target
   * reverts to its default.
   */
  lemma DeleteAsWrittenLeavesDanglingBinding(c: Ctx)
    ensures var c0 := TextureInit(c);
            var g := GenTextures(c0, 1);
            var c2 := BindTexture(BindTexture(g.0, TEXTURE_1D, 1), TEXTURE_2D, 1);
            && g.1 == [1] && Wf(c2)
            && c2.bound1d == Heap(c.nextAlloc) && c2.bound2d == Heap(c.nextAlloc)
            && !Live(DeleteTexturesAsWritten(c2, [1]), DeleteTexturesAsWritten(c2, [1]).bound2d)
            && DeleteTextures(c2, [1]).bound2d == Default2D
            && Wf(DeleteTextures(c2, [1]))
  {
    var c0 := TextureInit(c);
    TextureInitWf(c);
    var g := GenTextures(c0, 1);
    GenTexturesPreservesWf(c0, 1);
    var c1 := BindTexture(g.0, TEXTURE_1D, 1);
    BindPreservesWf(g.0, TEXTURE_1D, 1, true);
    var c2 := BindTexture(c1, TEXTURE_2D, 1);
    BindPreservesWf(c1, TEXTURE_2D, 1, true);
    assert Lookup(g.0, 1) == Some(c.nextAlloc);
    assert c1.names == g.0.names && c1.heap == g.0.heap;
    assert Lookup(c1, 1) == Some(c.nextAlloc);
    DeleteTexturesPreservesWf(c2, [1]);
    assert DeleteTexturesAsWritten(c2, [1]) == DeleteOne(c2, 1, true);
    assert DeleteTextures(c2, [1]) == DeleteOne(c2, 1, false);
  }

  /** The names of a list, as a set. */
  function Elements(s: seq<nat>): set<nat> {
    set i | 0 <= i < |s| :: s[i]
  }

  /** Deleting a list of names, either way, unregisters exactly its nonzero names. */
  lemma {:induction false} DeleteTexturesUnregisters(c: Ctx, names: seq<nat>, asWritten: bool)
    ensures DeleteTexturesWith(c, names, asWritten).names == c.names - (Elements(names) - {0})
    decreases |names|
  {
    if |names| == 0 {
      assert Elements(names) == {};
    } else {
      var c1 := DeleteOne(c, names[0], asWritten);
      DeleteTexturesUnregisters(c1, names[1..], asWritten);
      assert Elements(names) == {names[0]} + Elements(names[1..]) by {
        forall x | x in Elements(names) ensures x in {names[0]} + Elements(names[1..]) {
          var i :| 0 <= i < |names| && names[i] == x;
          if i > 0 { assert names[1..][i - 1] == x; }
        }
      }
      assert c1.names == c.names - ({names[0]} - {0});
    }
  }

  // ---- The active texture ----

  /** gl_get_active_texture: the 2D binding when 2D texturing is enabled, else the 1D one, else none. */
  function ActiveTexture(c: Ctx): (r: Option<ObjRef>)
    ensures r.Some? <==> c.enabled1d || c.enabled2d
    ensures c.enabled2d ==> r == Some(c.bound2d)
    ensures !c.enabled2d && c.enabled1d ==> r == Some(c.bound1d)
  {
    if c.enabled2d then Some(c.bound2d) else if c.enabled1d then Some(c.bound1d) else None
  }

  /** gl_texture_is_active: the pointer is the one sampled. */
  predicate IsActive(c: Ctx, r: ObjRef) {
    ActiveTexture(c) == Some(r)
  }

  /** gl_get_texture_object for a valid target. */
  function TargetRef(c: Ctx, target: int): ObjRef
    requires target == TEXTURE_1D || target == TEXTURE_2D
  {
    if target == TEXTURE_1D then c.bound1d else c.bound2d
  }

  // ---- Texture parameters ----

  /** The four parameters with a setter that validates its value. */
  datatype Param = WrapS | WrapT | MinFilter | MagFilter

  /** The values each setter accepts; any other is INVALID_ENUM. */
  predicate Accepts(p: Param, v: int) {
    match p
    case WrapS => v == CLAMP || v == REPEAT
    case WrapT => v == CLAMP || v == REPEAT
    case MinFilter => IsMinFilter(v)
    case MagFilter => v == NEAREST || v == LINEAR
  }

  function Field(obj: TexObject, p: Param): int {
    match p
    case WrapS => obj.wrapS
    case WrapT => obj.wrapT
    case MinFilter => obj.minFilter
    case MagFilter => obj.magFilter
  }

  /** The object with one parameter written; a new minification filter also refreshes the completeness cache. */
  function WithField(obj: TexObject, p: Param, v: int): (o: TexObject)
    ensures Field(o, p) == v
    ensures forall q :: q != p ==> Field(o, q) == Field(obj, q)
    ensures o.levels == obj.levels && o.dimensionality == obj.dimensionality
    ensures p == MinFilter ==> (o.isComplete, o.numLevels) == Completeness(o)
    ensures p != MinFilter ==> (o.isComplete, o.numLevels) == (obj.isComplete, obj.numLevels)
  {
    match p
    case WrapS => obj.(wrapS := v)
    case WrapT => obj.(wrapT := v)
    case MinFilter => UpdateCompleteness(obj.(minFilter := v))
    case MagFilter => obj.(magFilter := v)
  }

  /**
   * gl_texture_set_wrap_s, _wrap_t, _min_filter and _mag_filter on the
   * object `r` designates.  GL_SET_STATE (a macro that is not part of this
   * model) is taken to write the field and raise the texture-dirty flag
   * when the value differs from the one held.  The filter setters then
   * raise the render-mode flag when the texture-dirty flag is up, whatever
   * raised it, and the object is the one sampled.
   */
  function SetParam(c: Ctx, r: ObjRef, p: Param, v: int): (o: Ctx)
    requires Live(c, r)
    ensures !Accepts(p, v) ==> o == SetError(c, InvalidEnum)
    ensures Accepts(p, v) ==>
              && Live(o, r) && Deref(o, r) == WithField(Deref(c, r), p, v)
              && o.textureDirty == (c.textureDirty || Field(Deref(c, r), p) != v)
              && o.rendermodeDirty == (c.rendermodeDirty || ((p == MinFilter || p == MagFilter) && o.textureDirty && IsActive(c, r)))
              && (forall q :: Live(c, q) && q != r ==> Live(o, q) && Deref(o, q) == Deref(c, q))
              && o.(default1d := c.default1d, default2d := c.default2d, heap := c.heap,
                    textureDirty := c.textureDirty, rendermodeDirty := c.rendermodeDirty) == c
  {
    if !Accepts(p, v) then SetError(c, InvalidEnum)
    else
      var obj := Deref(c, r);
      var dirty := c.textureDirty || Field(obj, p) != v;
      var c1 := Store(c, r, WithField(obj, p, v)).(textureDirty := dirty);
      if (p == MinFilter || p == MagFilter) && dirty && IsActive(c, r) then c1.(rendermodeDirty := true) else c1
  }

  /** Setting a parameter to the value it already has changes nothing, even the dirty flags. */
  lemma SetParamIsIdempotent(c: Ctx, r: ObjRef, p: Param, v: int)
    requires Live(c, r)
    ensures SetParam(SetParam(c, r, p, v), r, p, v) == SetParam(c, r, p, v)
  {
    if Accepts(p, v) {
      var o := SetParam(c, r, p, v);
      WithFieldIsIdempotent(Deref(c, r), p, v);
      StoreOfOwnObject(o, r);
      assert IsActive(o, r) == IsActive(c, r);
    }
  }

  /** Writing back the object a pointer already designates changes nothing. */
  lemma StoreOfOwnObject(c: Ctx, r: ObjRef)
    requires Live(c, r)
    ensures Store(c, r, Deref(c, r)) == c
  {
  }

  lemma WithFieldIsIdempotent(obj: TexObject, p: Param, v: int)
    ensures WithField(WithField(obj, p, v), p, v) == WithField(obj, p, v)
  {
  }

  /** Writing an accepted value keeps an object well formed. */
  lemma WithFieldPreservesWf(obj: TexObject, p: Param, v: int)
    requires ObjectWf(obj) && Accepts(p, v)
    ensures ObjectWf(WithField(obj, p, v)) && WithField(obj, p, v).dimensionality == obj.dimensionality
  {
    var o := WithField(obj, p, v);
    assert o.levels == obj.levels;
    if p != MinFilter {
      assert Completeness(o) == Completeness(obj);
    }
  }

  /** Storing a well-formed object of the same dimensionality keeps the objects well formed. */
  lemma StorePreservesObjectsWf(c: Ctx, r: ObjRef, obj: TexObject)
    requires ObjectsWf(c) && Live(c, r) && ObjectWf(obj)
    ensures ObjectsWf(Store(c, r, obj))
  {
    if r.Heap? {
      ObjectsWfStore(c, Store(c, r, obj), r.id, obj);
    }
  }

  lemma StorePreservesShape(c: Ctx, r: ObjRef, obj: TexObject)
    requires HeapWf(c) && RegistryWf(c) && BindingsWf(c) && Live(c, r)
    requires obj.dimensionality == Deref(c, r).dimensionality
    ensures HeapWf(Store(c, r, obj)) && RegistryWf(Store(c, r, obj)) && BindingsWf(Store(c, r, obj))
  {
    var o := Store(c, r, obj);
    if r.Heap? {
      forall id | id in o.heap
        ensures id < o.nextAlloc && o.heap[id].dimensionality in {0, TEXTURE_1D, TEXTURE_2D}
      {
        if id != r.id {
          assert o.heap[id] == c.heap[id];
        }
      }
    }
  }

  /** Writing a well-formed object of the same dimensionality through a live pointer keeps the context well formed. */
  lemma StorePreservesWf(c: Ctx, r: ObjRef, obj: TexObject)
    requires Wf(c) && Live(c, r) && ObjectWf(obj)
    requires obj.dimensionality == Deref(c, r).dimensionality
    ensures Wf(Store(c, r, obj))
  {
    StorePreservesObjectsWf(c, r, obj);
    StorePreservesShape(c, r, obj);
  }

  /** A live object of a well-formed context is well formed. */
  lemma LiveObjectWf(c: Ctx, r: ObjRef)
    requires ObjectsWf(c) && Live(c, r)
    ensures ObjectWf(Deref(c, r))
  {
    if r.Heap? {
      assert ObjectWf(c.heap[r.id]);
    }
  }

  /** The dirty flags are outside the invariant. */
  lemma FlagsPreserveWf(c: Ctx, dirty: bool, rendermodeDirty: bool)
    requires Wf(c)
    ensures Wf(c.(textureDirty := dirty, rendermodeDirty := rendermodeDirty))
  {
  }

  /** A store of a well-formed object of the same dimensionality, with any dirty flags, keeps the context well formed. */
  lemma StoreFlagsPreservesWf(c: Ctx, r: ObjRef, obj: TexObject, dirty: bool, rendermodeDirty: bool)
    requires Wf(c) && Live(c, r) && ObjectWf(obj)
    requires obj.dimensionality == Deref(c, r).dimensionality
    ensures Wf(Store(c, r, obj).(textureDirty := dirty, rendermodeDirty := rendermodeDirty))
  {
    StorePreservesWf(c, r, obj);
    FlagsPreserveWf(Store(c, r, obj), dirty, rendermodeDirty);
  }

  lemma SetParamPreservesWf(c: Ctx, r: ObjRef, p: Param, v: int)
    requires Wf(c) && Live(c, r)
    ensures Wf(SetParam(c, r, p, v))
  {
    if Accepts(p, v) {
      var obj := Deref(c, r);
      var o := SetParam(c, r, p, v);
      LiveObjectWf(c, r);
      WithFieldPreservesWf(obj, p, v);
      StoreFlagsPreservesWf(c, r, WithField(obj, p, v), o.textureDirty, o.rendermodeDirty);
      assert o == Store(c, r, WithField(obj, p, v)).(textureDirty := o.textureDirty, rendermodeDirty := o.rendermodeDirty);
    }
  }

  /** The parameter a pname selects, if it has a validating setter. */
  function ParamOf(pname: int): (r: Option<Param>)
    ensures r == Some(WrapS) <==> pname == TEXTURE_WRAP_S
    ensures r == Some(WrapT) <==> pname == TEXTURE_WRAP_T
    ensures r == Some(MinFilter) <==> pname == TEXTURE_MIN_FILTER
    ensures r == Some(MagFilter) <==> pname == TEXTURE_MAG_FILTER
  {
    if pname == TEXTURE_WRAP_S then Some(WrapS)
    else if pname == TEXTURE_WRAP_T then Some(WrapT)
    else if pname == TEXTURE_MIN_FILTER then Some(MinFilter)
    else if pname == TEXTURE_MAG_FILTER then Some(MagFilter)
    else None
  }

  /**
   * glTexParameteri, glTexParameterf (`vector` false) and glTexParameteriv,
   * glTexParameterfv (`vector` true), with `param` the first value already
   * converted to an enum.  Priority and, in the vector forms, border colour
   * only raise the texture-dirty flag here: their clamped float values are
   * not modelled.
   */
  function TexParameter(c: Ctx, target: int, pname: int, param: int, vector: bool): (o: Ctx)
    requires BindingsLive(c)
    ensures target != TEXTURE_1D && target != TEXTURE_2D ==> o == SetError(c, InvalidEnum)
    ensures (target == TEXTURE_1D || target == TEXTURE_2D) && ParamOf(pname).Some? ==>
              o == SetParam(c, TargetRef(c, target), ParamOf(pname).value, param)
    ensures (target == TEXTURE_1D || target == TEXTURE_2D) && ParamOf(pname).None? ==>
              if pname == TEXTURE_PRIORITY || (vector && pname == TEXTURE_BORDER_COLOR) then o == c.(textureDirty := true)
              else o == SetError(c, InvalidEnum)
  {
    if target != TEXTURE_1D && target != TEXTURE_2D then SetError(c, InvalidEnum)
    else match ParamOf(pname)
      case Some(p) => SetParam(c, TargetRef(c, target), p, param)
      case None =>
        if pname == TEXTURE_PRIORITY || (vector && pname == TEXTURE_BORDER_COLOR) then c.(textureDirty := true)
        else SetError(c, InvalidEnum)
  }

  lemma TexParameterPreservesWf(c: Ctx, target: int, pname: int, param: int, vector: bool)
    requires Wf(c)
    ensures Wf(TexParameter(c, target, pname, param, vector))
  {
    if target != TEXTURE_1D && target != TEXTURE_2D {
      SetErrorPreservesWf(c, InvalidEnum);
    } else if ParamOf(pname).Some? {
      SetParamPreservesWf(c, TargetRef(c, target), ParamOf(pname).value, param);
    } else if pname == TEXTURE_PRIORITY || (vector && pname == TEXTURE_BORDER_COLOR) {
      FlagsPreserveWf(c, true, c.rendermodeDirty);
      assert TexParameter(c, target, pname, param, vector) == c.(textureDirty := true, rendermodeDirty := c.rendermodeDirty);
    } else {
      SetErrorPreservesWf(c, InvalidEnum);
    }
  }

  // ---- Image upload ----

  /**
   * gl_tex_image on a valid target, `buffer` being what the allocation
   * returns: a nonzero border aborts, then the bound object takes the
   * upload, and a successful one raises the texture-dirty flag.
   */
  function TexImage(c: Ctx, target: int, level: int, internalformat: int, width: int, height: int, border: int,
                    format: int, t: int, buffer: Option<nat>): (o: Outcome)
    requires target == TEXTURE_1D || target == TEXTURE_2D
    requires BindingsLive(c)
    ensures border != 0 ==> o == Aborted(BorderNotImplemented)
    ensures border == 0 ==>
              var up := UploadImage(Deref(c, TargetRef(c, target)), level, internalformat, width, height, format, t, buffer);
              && (up.Fatal? <==> o.Aborted?)
              && (up.Fatal? ==> o.reason == up.reason)
              && (up.Err? ==> o == Continue(SetError(c, up.error)))
              && (up.Ok? ==> o.Continue? && Live(o.ctx, TargetRef(c, target))
                             && Deref(o.ctx, TargetRef(c, target)) == up.value && o.ctx.textureDirty
                             && o.ctx.error == c.error && o.ctx.heap.Keys == c.heap.Keys
                             && o.ctx.bound1d == c.bound1d && o.ctx.bound2d == c.bound2d
                             && o.ctx.names == c.names && o.ctx.nextTexName == c.nextTexName
                             && o.ctx.nextAlloc == c.nextAlloc && o.ctx.rendermodeDirty == c.rendermodeDirty
                             && o.ctx.enabled1d == c.enabled1d && o.ctx.enabled2d == c.enabled2d
                             && (forall q :: Live(c, q) && q != TargetRef(c, target) ==>
                                               Live(o.ctx, q) && Deref(o.ctx, q) == Deref(c, q)))
  {
    if border != 0 then Aborted(BorderNotImplemented)
    else
      var r := TargetRef(c, target);
      var up := UploadImage(Deref(c, r), level, internalformat, width, height, format, t, buffer);
      if up.Ok? then Continue(Store(c, r, up.value).(textureDirty := true))
      else if up.Err? then Continue(SetError(c, up.error))
      else Aborted(up.reason)
  }

  /** glTexImage1D: only GL_TEXTURE_1D, and one row. */
  function TexImage1D(c: Ctx, target: int, level: int, internalformat: int, width: int, border: int,
                      format: int, t: int, buffer: Option<nat>): (o: Outcome)
    requires BindingsLive(c)
    ensures target != TEXTURE_1D ==> o == Continue(SetError(c, InvalidEnum))
    ensures target == TEXTURE_1D ==> o == TexImage(c, TEXTURE_1D, level, internalformat, width, 1, border, format, t, buffer)
  {
    if target != TEXTURE_1D then Continue(SetError(c, InvalidEnum))
    else TexImage(c, target, level, internalformat, width, 1, border, format, t, buffer)
  }

  /** glTexImage2D: only GL_TEXTURE_2D. */
  function TexImage2D(c: Ctx, target: int, level: int, internalformat: int, width: int, height: int, border: int,
                      format: int, t: int, buffer: Option<nat>): (o: Outcome)
    requires BindingsLive(c)
    ensures target != TEXTURE_2D ==> o == Continue(SetError(c, InvalidEnum))
    ensures target == TEXTURE_2D ==> o == TexImage(c, TEXTURE_2D, level, internalformat, width, height, border, format, t, buffer)
  {
    if target != TEXTURE_2D then Continue(SetError(c, InvalidEnum))
    else TexImage(c, target, level, internalformat, width, height, border, format, t, buffer)
  }

  /** An upload that does not abort keeps the context well formed. */
  lemma TexImagePreservesWf(c: Ctx, target: int, level: int, internalformat: int, width: int, height: int, border: int,
                            format: int, t: int, buffer: Option<nat>)
    requires Wf(c) && (target == TEXTURE_1D || target == TEXTURE_2D)
    requires TexImage(c, target, level, internalformat, width, height, border, format, t, buffer).Continue?
    ensures Wf(TexImage(c, target, level, internalformat, width, height, border, format, t, buffer).ctx)
  {
    var r := TargetRef(c, target);
    var obj := Deref(c, r);
    var up := UploadImage(obj, level, internalformat, width, height, format, t, buffer);
    if up.Ok? {
      UploadedPreservesWf(c, r, obj, level, internalformat, width, height, format, t, buffer);
      assert TexImage(c, target, level, internalformat, width, height, border, format, t, buffer).ctx
             == Store(c, r, up.value).(textureDirty := true, rendermodeDirty := c.rendermodeDirty);
    } else if up.Err? {
      SetErrorPreservesWf(c, up.error);
    }
  }

  lemma UploadedPreservesWf(c: Ctx, r: ObjRef, obj: TexObject, level: int, internalformat: int, width: int, height: int,
                            format: int, t: int, buffer: Option<nat>)
    requires Wf(c) && Live(c, r) && obj == Deref(c, r)
    requires UploadImage(obj, level, internalformat, width, height, format, t, buffer).Ok?
    ensures Wf(Store(c, r, UploadImage(obj, level, internalformat, width, height, format, t, buffer).value)
                 .(textureDirty := true, rendermodeDirty := c.rendermodeDirty))
  {
    LiveObjectWf(c, r);
    UploadPreservesWf(obj, level, internalformat, width, height, format, t, buffer);
    StoreFlagsPreservesWf(c, r, UploadImage(obj, level, internalformat, width, height, format, t, buffer).value,
                          true, c.rendermodeDirty);
  }

  /**
   * gl_tex_sub_image on a valid target, with the bounds check: the region
   * the transfer writes, if any, and the context after it.  Only the
   * texture-dirty flag or the error slot change.
   */
  function TexSubImage(c: Ctx, target: int, level: int, xoffset: int, yoffset: int, width: int, height: int,
                       format: int, t: int): (r: (Ctx, Option<Region>))
    requires target == TEXTURE_1D || target == TEXTURE_2D
    requires BindingsLive(c)
    ensures var s := SubImage(Deref(c, TargetRef(c, target)), level, xoffset, yoffset, width, height, format, t);
            && (r.1.Some? <==> s.Ok?)
            && (s.Ok? ==> r.1.value == s.value && r.0 == c.(textureDirty := true))
            && (s.Err? ==> r.0 == SetError(c, s.error))
  {
    match SubImage(Deref(c, TargetRef(c, target)), level, xoffset, yoffset, width, height, format, t)
    case Ok(reg) => (c.(textureDirty := true), Some(reg))
    case Err(e) => (SetError(c, e), None)
    case Fatal(_) => (c, None)
  }

  /** glTexSubImage1D: only GL_TEXTURE_1D, row 0, one row. */
  function TexSubImage1D(c: Ctx, target: int, level: int, xoffset: int, width: int, format: int, t: int): (r: (Ctx, Option<Region>))
    requires BindingsLive(c)
    ensures target != TEXTURE_1D ==> r == (SetError(c, InvalidEnum), None)
    ensures target == TEXTURE_1D ==> r == TexSubImage(c, TEXTURE_1D, level, xoffset, 0, width, 1, format, t)
  {
    if target != TEXTURE_1D then (SetError(c, InvalidEnum), None)
    else TexSubImage(c, target, level, xoffset, 0, width, 1, format, t)
  }

  /** glTexSubImage2D: only GL_TEXTURE_2D. */
  function TexSubImage2D(c: Ctx, target: int, level: int, xoffset: int, yoffset: int, width: int, height: int,
                         format: int, t: int): (r: (Ctx, Option<Region>))
    requires BindingsLive(c)
    ensures target != TEXTURE_2D ==> r == (SetError(c, InvalidEnum), None)
    ensures target == TEXTURE_2D ==> r == TexSubImage(c, TEXTURE_2D, level, xoffset, yoffset, width, height, format, t)
  {
    if target != TEXTURE_2D then (SetError(c, InvalidEnum), None)
    else TexSubImage(c, target, level, xoffset, yoffset, width, height, format, t)
  }

  /** Every texel a sub-image upload on a well-formed context writes lies in the bound image's buffer. */
  lemma TexSubImageStaysInBuffer(c: Ctx, target: int, level: int, xoffset: int, yoffset: int, width: int, height: int,
                                 format: int, t: int, row: nat, x: nat)
    requires Wf(c) && (target == TEXTURE_1D || target == TEXTURE_2D)
    requires TexSubImage(c, target, level, xoffset, yoffset, width, height, format, t).1.Some?
    requires row < height && xoffset <= x < xoffset + width
    ensures var reg := TexSubImage(c, target, level, xoffset, yoffset, width, height, format, t).1.value;
            var img := Deref(c, TargetRef(c, target)).levels[level];
            && reg.buffer == img.data.value
            && 0 <= (reg.yoffset + row) * reg.stride
            && TexelEnd(reg, row, x) <= LevelSize(img)
  {
    var r := TargetRef(c, target);
    var obj := Deref(c, r);
    assert ObjectWf(obj) by {
      if r.Heap? {
        assert ObjectWf(c.heap[r.id]);
      }
    }
    SubImageStaysInBuffer(obj, level, xoffset, yoffset, width, height, format, t, row, x);
  }

  /** The context after a sub-image upload is well formed when it was before. */
  lemma TexSubImagePreservesWf(c: Ctx, target: int, level: int, xoffset: int, yoffset: int, width: int, height: int,
                               format: int, t: int)
    requires Wf(c) && (target == TEXTURE_1D || target == TEXTURE_2D)
    ensures Wf(TexSubImage(c, target, level, xoffset, yoffset, width, height, format, t).0)
  {
  }

  // ---- Loading TMEM ----

  /** The object gl_update_texture reads, if any. */
  function ActiveObject(c: Ctx): (r: Option<TexObject>)
    requires BindingsLive(c)
    ensures r.Some? <==> ActiveTexture(c).Some?
    ensures r.Some? ==> r.value == Deref(c, ActiveTexture(c).value)
  {
    match ActiveTexture(c)
    case Some(ref) => Some(Deref(c, ref))
    case None => None
  }

  /**
   * gl_update_texture on a well-formed context: nothing is loaded unless a
   * complete texture is active; otherwise one load per sampled level, each
   * an 8-byte aligned block of TMEM holding the whole level, in increasing
   * order without overlap.
   */
  method UpdateTexture(c: Ctx) returns (plan: seq<TileLoad>)
    requires Wf(c)
    ensures ActiveObject(c).None? || !ActiveObject(c).value.isComplete ==> plan == []
    ensures ActiveObject(c).Some? && ActiveObject(c).value.isComplete ==> |plan| == ActiveObject(c).value.numLevels
    ensures forall l :: 0 <= l < |plan| ==>
              && plan[l].tmemAddress % 8 == 0
              && plan[l].tmemAddress + plan[l].loadTexels * BytesPerPixel(plan[l].loadFormat) <= TMEM_SIZE
              && plan[l].buffer.Some? && plan[l].tile == l
    ensures forall l :: 0 <= l && l + 1 < |plan| ==>
              plan[l].tmemAddress + plan[l].loadTexels * BytesPerPixel(plan[l].loadFormat) <= plan[l + 1].tmemAddress
    ensures ActiveObject(c).Some? && ActiveObject(c).value.isComplete ==>
              var obj := ActiveObject(c).value;
              forall l :: 0 <= l < |plan| ==> l < MAX_TEXTURE_LEVELS && LoadsLevel(obj, l, plan[l])
  {
    var active := ActiveObject(c);
    if active.Some? {
      var ref := ActiveTexture(c).value;
      assert ObjectWf(active.value) by {
        if ref.Heap? {
          assert ObjectWf(c.heap[ref.id]);
        }
      }
      SampledLevelsFitTmem(active.value);
    }
    plan := PlanUpdate(active);
    if active.Some? && active.value.isComplete {
      var obj := active.value;
      forall l | 0 <= l < |plan|
        ensures && plan[l].tmemAddress % 8 == 0
                && plan[l].tmemAddress + plan[l].loadTexels * BytesPerPixel(plan[l].loadFormat) <= TMEM_SIZE
                && plan[l].buffer.Some? && plan[l].tile == l
      {
        PlannedLevelFitsTmem(obj, l);
        PlannedLoadCoversLevel(obj, l);
      }
      forall l | 0 <= l < |plan|
        ensures l < MAX_TEXTURE_LEVELS && LoadsLevel(obj, l, plan[l])
      {
        PlannedLoadIsLevel(obj, l);
      }
      forall l | 0 <= l && l + 1 < |plan|
        ensures plan[l].tmemAddress + plan[l].loadTexels * BytesPerPixel(plan[l].loadFormat) <= plan[l + 1].tmemAddress
      {
        PlannedLoadCoversLevel(obj, l);
        PlannedLevelsDoNotOverlap(obj, l);
      }
    }
  }
}

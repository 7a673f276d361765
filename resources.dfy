/**
 * The REST resources: each handler turns the ids of its route and the request document into a
 * handler result (which `unpack` turns into the response) and a change to the session.
 *
 * Python inheritance is modelled by composition: each resource class holds the
 * `BaseResource` whose fields and save helpers it inherits in the source.
 */
module Resources {
  import opened Wrappers
  import opened Values
  import opened Session

  const NotFoundError: string := "Resource not found in the database!"

  /** `NOT_FOUND_ERROR, 404`. */
  const NotFound: Value := Tuple([Str(NotFoundError), Int(404)])

  /** `'', 204`. */
  const Deleted: Value := Tuple([Str(""), Int(204)])

  const PropertyPostRefused: string := "POST not allowed for property resources"

  /**
   * The entity serializer: `dump` gives an entity's document, `load(doc, existing)` gives the
   * object the document describes, written into `existing` when there is one.
   */
  datatype Serializer = Serializer(dump: Entity -> Document, load: (Document, Option<Entity>) -> Entity)

  /** What `query_from_request` is applied to: the resource's whole table, or a relationship's query. */
  datatype Scope = Table(rows: map<Id, Entity>) | Collection(items: seq<Entity>)

  /** A request decorator, by name. */
  datatype Decorator = Decorator(name: string)

  /** What `dispatch_request` is bound to: the undecorated dispatch, or a decorator applied to a view. */
  datatype View = Dispatch | Decorated(decorator: Decorator, inner: View)

  /** The view the decorators `[d1, ..., dn]` produce: `dn(...d1(dispatch))`. */
  function Wrap(ds: seq<Decorator>): (v: View)
    ensures v == Dispatch <==> ds == []
    ensures ds != [] ==> v.decorator == ds[|ds| - 1]
  {
    if ds == [] then Dispatch else Decorated(ds[|ds| - 1], Wrap(ds[..|ds| - 1]))
  }

  /** The decorators a request passes through, outermost first. */
  function Layers(v: View): seq<Decorator> {
    match v
    case Dispatch => []
    case Decorated(d, inner) => [d] + Layers(inner)
  }

  /**
   * The last decorator of the list is the outermost layer and the first is applied directly to
   * the undecorated dispatch: the request meets the decorators in reverse list order.
   */
  lemma {:induction false} WrapOrder(ds: seq<Decorator>)
    ensures |Layers(Wrap(ds))| == |ds|
    ensures forall i :: 0 <= i < |ds| ==> Layers(Wrap(ds))[i] == ds[|ds| - 1 - i]
  {
    if ds != [] {
      var init := ds[..|ds| - 1];
      WrapOrder(init);
      assert Layers(Wrap(ds)) == [ds[|ds| - 1]] + Layers(Wrap(init));
    }
  }

  /** The dumped documents of `items`, in order: `[dump(item) for item in items]`. */
  function Dumps(items: seq<Entity>, dump: Entity -> Document): (r: seq<Value>)
    ensures |r| == |items|
    ensures forall i :: 0 <= i < |items| ==> r[i] == Dict(dump(items[i]))
  {
    if items == [] then [] else [Dict(dump(items[0]))] + Dumps(items[1..], dump)
  }

  /** The events `_save_model` logs for `id` under `tag`: the hooks of that tag around exactly one commit. */
  function CommitProtocol(tag: Method, id: Id): (events: seq<Event>)
    ensures Commits(events) == 1
    ensures |events| == 3 && events[1] == Event.Commit
    ensures events[0] == BeforeCommit(tag, id) && events[2] == AfterCommit(tag, id)
    ensures forall e :: e in events && !e.Commit? ==> e.tag == tag && e.id == id
  {
    var events := [BeforeCommit(tag, id), Event.Commit, AfterCommit(tag, id)];
    assert [BeforeCommit(tag, id)][..0] == [];
    assert Commits([BeforeCommit(tag, id)]) == 0;
    assert [BeforeCommit(tag, id), Event.Commit][..1] == [BeforeCommit(tag, id)];
    assert Commits([BeforeCommit(tag, id), Event.Commit]) == 1;
    assert events[..|events| - 1] == [BeforeCommit(tag, id), Event.Commit];
    events
  }

  /** The key a request's `id` value names: only an integer names a row. */
  function KeyOf(v: Value): (k: Option<Id>)
    ensures k.Some? <==> v.Int?
    ensures v.Int? ==> k == Some(v.i)
  {
    if v.Int? then Some(v.i) else None
  }

  class BaseResource {
    const store: Store
    const serializer: Serializer
    /** Python truthiness of a mapped object. */
    const truthy: Entity -> bool
    /** What `dispatch_request` is bound to once the constructor has run. */
    var dispatch: View

    /** The constructor rebinds `dispatch_request` to each decorator in turn. */
    constructor (store: Store, serializer: Serializer, truthy: Entity -> bool, decorators: seq<Decorator>)
      ensures this.store == store && this.serializer == serializer && this.truthy == truthy
      ensures dispatch == Wrap(decorators)
    {
      this.store := store;
      this.serializer := serializer;
      this.truthy := truthy;
      dispatch := Dispatch;
      new;
      var i := 0;
      while i < |decorators|
        invariant 0 <= i <= |decorators|
        invariant dispatch == Wrap(decorators[..i])
      {
        assert decorators[..i + 1][..i] == decorators[..i];
        dispatch := Decorated(decorators[i], dispatch);
        i := i + 1;
      }
      assert decorators[..i] == decorators;
    }

    /**
     * `save_from_request`: the loaded request with the extra attributes set on it is added and
     * committed, with no hooks; the result is its dumped document, key included.
     */
    method SaveFromRequest(request: Document, extra: map<string, Value>) returns (r: Document)
      requires store.Valid()
      modifies store
      ensures store.Valid()
      ensures var obj := Keyed(Entity(Update(serializer.load(request, None).attrs, extra)), old(store.nextId));
        && store.entities == old(store.entities)[old(store.nextId) := obj]
        && r == serializer.dump(obj)
      ensures store.log == old(store.log) + [Event.Commit] && store.commits == old(store.commits) + 1
      ensures store.nextId == old(store.nextId) + 1
      ensures store.parents == old(store.parents) && store.relation == old(store.relation)
    {
      var obj := serializer.load(request, None);
      obj := SetAttributes(obj, extra);
      var id := store.Add(obj);
      store.Commit();
      r := serializer.dump(store.entities[id]);
    }

    /**
     * `_save_model`: the object is placed in the session (inserted under a new key, or written
     * over `target`), then the serializer's hooks for `tag` run around exactly one commit.
     * The result is the object's key.
     */
    method SaveModel(target: Option<Id>, obj: Entity, tag: Method) returns (id: Id)
      requires store.Valid()
      requires target.Some? ==> target.value in store.entities
      modifies store
      ensures store.Valid()
      ensures id == (if target.Some? then target.value else old(store.nextId))
      ensures store.entities == old(store.entities)[id := if target.Some? then obj else Keyed(obj, id)]
      ensures store.log == old(store.log) + CommitProtocol(tag, id)
      ensures store.commits == old(store.commits) + 1
      ensures store.nextId == old(store.nextId) + (if target.Some? then 0 else 1)
      ensures store.parents == old(store.parents) && store.relation == old(store.relation)
    {
      if target.Some? {
        id := target.value;
        store.Write(id, obj);
      } else {
        id := store.Add(obj);
      }
      store.Hook(BeforeCommit(tag, id));
      store.Commit();
      store.Hook(AfterCommit(tag, id));
      assert store.log == old(store.log) + [BeforeCommit(tag, id), Event.Commit, AfterCommit(tag, id)];
    }

    /**
     * `_save_serialized`: the document is loaded (into the existing object when there is one)
     * and saved with tag PUT exactly when there is an existing object and it is truthy once the
     * document has been loaded into it; the result is the saved object's dumped document, which
     * for a new object holds the key it was given.
     */
    method SaveSerialized(doc: Document, existing: Option<Id>) returns (r: Document)
      requires store.Valid()
      requires existing.Some? ==> existing.value in store.entities
      modifies store
      ensures store.Valid()
      ensures var was := if existing.Some? then Some(old(store.entities)[existing.value]) else None;
        var obj := serializer.load(doc, was);
        var id := if existing.Some? then existing.value else old(store.nextId);
        var saved := if existing.Some? then obj else Keyed(obj, id);
        && store.entities == old(store.entities)[id := saved]
        && store.log == old(store.log) + CommitProtocol(if was.Some? && truthy(obj) then PUT else POST, id)
        && r == serializer.dump(saved)
      ensures store.commits == old(store.commits) + 1
      ensures store.nextId == old(store.nextId) + (if existing.Some? then 0 else 1)
      ensures store.parents == old(store.parents) && store.relation == old(store.relation)
    {
      var was := if existing.Some? then Some(store.entities[existing.value]) else None;
      var obj := serializer.load(doc, was);
      var tag := if was.Some? && truthy(obj) then PUT else POST;
      var id := SaveModel(existing, obj, tag);
      r := serializer.dump(store.entities[id]);
    }
  }

  /** The `setattr` loop over `extra_attrs.items()`: each extra attribute overrides the loaded one. */
  method SetAttributes(obj: Entity, extra: map<string, Value>) returns (r: Entity)
    ensures r.attrs.Keys == obj.attrs.Keys + extra.Keys
    ensures forall k :: k in extra ==> r.attrs[k] == extra[k]
    ensures forall k :: k in obj.attrs && k !in extra ==> r.attrs[k] == obj.attrs[k]
    ensures r == Entity(Update(obj.attrs, extra))
  {
    r := obj;
    var remaining := extra;
    assert Update(r.attrs, remaining) == Update(obj.attrs, extra);
    while remaining != map[]
      invariant Update(r.attrs, remaining) == Update(obj.attrs, extra)
      decreases |remaining|
    {
      var name :| name in remaining;
      var value := remaining[name];
      SetThenUpdate(r.attrs, remaining, name);
      r := r.(attrs := r.attrs[name := value]);
      remaining := remaining - {name};
    }
    assert Update(r.attrs, remaining) == r.attrs;
    assert r.attrs == Update(obj.attrs, extra);
  }

  /** Setting one key and then applying the rest of an update is applying the whole update. */
  lemma SetThenUpdate(attrs: Document, remaining: Document, name: string)
    requires name in remaining
    ensures Update(attrs[name := remaining[name]], remaining - {name}) == Update(attrs, remaining)
  {
    var a := Update(attrs[name := remaining[name]], remaining - {name});
    var b := Update(attrs, remaining);
    assert a.Keys == b.Keys;
    forall k | k in a ensures a[k] == b[k] {
    }
  }

  class ModelResource {
    const base: BaseResource

    constructor (store: Store, serializer: Serializer, truthy: Entity -> bool, decorators: seq<Decorator>)
      ensures base.store == store && base.serializer == serializer && base.truthy == truthy
      ensures base.dispatch == Wrap(decorators)
    {
      base := new BaseResource(store, serializer, truthy, decorators);
    }

    /**
     * `get`: with an id, the entity's document, or 404 exactly when the id is absent; without
     * one, what `query_from_request` gives for the whole table.
     */
    function Get(id: Option<Id>, query: Scope -> Value): (r: Value)
      reads base.store
      ensures id.Some? ==> (r == NotFound <==> id.value !in base.store.entities)
      ensures id.Some? && id.value in base.store.entities ==>
        Unpack(r) == Triple(Dict(base.serializer.dump(base.store.entities[id.value])), Int(200), NoHeaders)
      ensures id.None? ==> r == query(Table(base.store.entities))
    {
      if id.Some? then
        if id.value !in base.store.entities then NotFound
        else Dict(base.serializer.dump(base.store.entities[id.value]))
      else query(Table(base.store.entities))
    }

    /**
     * `put`: 404 with nothing changed for an absent id; otherwise the entity's dump updated with
     * the request document is loaded into the entity and saved, tagged PUT exactly when the
     * entity is truthy after that load.
     */
    method Put(id: Id, request: Document) returns (r: Value)
      requires base.store.Valid()
      modifies base.store
      ensures base.store.Valid()
      ensures id !in old(base.store.entities) ==> r == NotFound && unchanged(base.store)
      ensures id in old(base.store.entities) ==>
        var e := old(base.store.entities)[id];
        var obj := base.serializer.load(Update(base.serializer.dump(e), request), Some(e));
        && base.store.entities == old(base.store.entities)[id := obj]
        && base.store.log == old(base.store.log) + CommitProtocol(if base.truthy(obj) then PUT else POST, id)
        && base.store.commits == old(base.store.commits) + 1
        && base.store.nextId == old(base.store.nextId)
        && base.store.parents == old(base.store.parents) && base.store.relation == old(base.store.relation)
        && r == Dict(base.serializer.dump(obj))
    {
      var store := base.store;
      if id !in store.entities {
        return NotFound;
      }
      var data := store.entities[id];
      var serialized := Update(base.serializer.dump(data), request);
      var result := base.SaveSerialized(serialized, Some(id));
      r := Dict(result);
    }

    /** `delete`: 404 with nothing changed for an absent id; otherwise the row goes in one commit. */
    method Delete(id: Id) returns (r: Value)
      requires base.store.Valid()
      modifies base.store
      ensures base.store.Valid()
      ensures id !in old(base.store.entities) ==> r == NotFound && unchanged(base.store)
      ensures id in old(base.store.entities) ==>
        && base.store.entities == old(base.store.entities) - {id}
        && base.store.relation == (map p | p in old(base.store.relation) :: Without(old(base.store.relation)[p], id))
        && base.store.log == old(base.store.log) + [Event.Commit]
        && base.store.commits == old(base.store.commits) + 1
        && base.store.nextId == old(base.store.nextId) && base.store.parents == old(base.store.parents)
        && r == Deleted
    {
      var store := base.store;
      if id !in store.entities {
        return NotFound;
      }
      store.Delete(id);
      store.Commit();
      r := Deleted;
    }

    /** `post`: the request document is loaded as a new entity, saved with tag POST, and answered with 201. */
    method Post(request: Document) returns (r: Value)
      requires base.store.Valid()
      modifies base.store
      ensures base.store.Valid()
      ensures var id := old(base.store.nextId);
        var obj := Keyed(base.serializer.load(request, None), id);
        && id !in old(base.store.entities)
        && base.store.entities == old(base.store.entities)[id := obj]
        && base.store.log == old(base.store.log) + CommitProtocol(POST, id)
        && base.store.commits == old(base.store.commits) + 1
        && base.store.nextId == old(base.store.nextId) + 1
        && base.store.parents == old(base.store.parents) && base.store.relation == old(base.store.relation)
        && r == Tuple([Dict(base.serializer.dump(obj)), Int(201)])
    {
      var saved := base.SaveSerialized(request, None);
      r := Tuple([Dict(saved), Int(201)]);
    }
  }

  class ToManyRelationResource {
    const base: BaseResource
    /** Whether the relationship is a query that can paginate, rather than a plain list. */
    const dynamic: bool

    constructor (store: Store, serializer: Serializer, truthy: Entity -> bool, decorators: seq<Decorator>,
                 dynamic: bool)
      ensures base.store == store && base.serializer == serializer && base.truthy == truthy
      ensures base.dispatch == Wrap(decorators) && this.dynamic == dynamic
    {
      base := new BaseResource(store, serializer, truthy, decorators);
      this.dynamic := dynamic;
    }

    /**
     * `_query_related_obj`: the child `id`, found only when parent `parent` exists and the
     * child is in that parent's collection.
     */
    function QueryRelatedObj(parent: Id, id: Id): (r: Option<Entity>)
      reads base.store
      requires base.store.Valid()
      ensures r.Some? <==> parent in base.store.parents && id in base.store.relation[parent]
      ensures r.Some? ==> id in base.store.entities && r.value == base.store.entities[id]
    {
      if parent in base.store.relation && id in base.store.relation[parent] then Some(base.store.entities[id])
      else None
    }

    /**
     * `get`: with a truthy id, the associated child's document, or 404 when the child is not in
     * the parent's collection or is falsy; with no id or id 0, 404 for an absent parent, else the
     * parent's collection, listed or handed to `query_from_request`.
     */
    function Get(parent: Id, id: Option<Id>, query: Scope -> Value): (r: Value)
      reads base.store
      requires base.store.Valid()
      ensures id.Some? && id.value != 0 ==>
        (r == NotFound <==>
          !(parent in base.store.parents && id.value in base.store.relation[parent]
            && base.truthy(base.store.entities[id.value])))
      ensures id.Some? && id.value != 0 && r != NotFound ==>
        Unpack(r) == Triple(Dict(base.serializer.dump(base.store.entities[id.value])), Int(200), NoHeaders)
      ensures (id.None? || id.value == 0) && parent !in base.store.parents ==> r == NotFound
      ensures (id.None? || id.value == 0) && parent in base.store.parents && !dynamic ==>
        var children := base.store.relation[parent];
        && r.List? && |r.items| == |children|
        && forall i :: 0 <= i < |children| ==> r.items[i] == Dict(base.serializer.dump(base.store.entities[children[i]]))
      ensures (id.None? || id.value == 0) && parent in base.store.parents && dynamic ==>
        r == query(Collection(Lookup(base.store.relation[parent], base.store.entities)))
    {
      if id.Some? && id.value != 0 then
        match QueryRelatedObj(parent, id.value)
        case None => NotFound
        case Some(e) => if base.truthy(e) then Tuple([Dict(base.serializer.dump(e)), Int(200)]) else NotFound
      else if parent !in base.store.parents then NotFound
      else
        var items := Lookup(base.store.relation[parent], base.store.entities);
        if dynamic then query(Collection(items)) else List(Dumps(items, base.serializer.dump))
    }

    /**
     * `post`: 404 with nothing changed for an absent or falsy parent; a non-null `id` in the
     * request attaches that existing child; otherwise the request is loaded as a new child,
     * appended to the parent's collection and saved with tag POST.
     */
    method Post(parent: Id, request: Document) returns (r: Value)
      requires base.store.Valid()
      modifies base.store
      ensures base.store.Valid()
      ensures parent !in old(base.store.parents) || !base.truthy(old(base.store.parents)[parent]) ==>
        r == NotFound && unchanged(base.store)
      ensures (parent in old(base.store.parents) && base.truthy(old(base.store.parents)[parent])
          && !GetOrNull(request, "id").Null?) ==>
        var key := KeyOf(GetOrNull(request, "id"));
        if key.None? || key.value !in old(base.store.entities) then
          r == NotFound && unchanged(base.store)
        else
          && base.store.relation == old(base.store.relation)[parent := Attach(old(base.store.relation)[parent], key.value)]
          && base.store.entities == old(base.store.entities) && base.store.nextId == old(base.store.nextId)
          && base.store.log == old(base.store.log) + [Event.Commit]
          && base.store.commits == old(base.store.commits) + 1
          && base.store.parents == old(base.store.parents)
          && r == Tuple([Dict(base.serializer.dump(base.store.entities[key.value])), Int(200)])
      ensures (parent in old(base.store.parents) && base.truthy(old(base.store.parents)[parent])
          && GetOrNull(request, "id").Null?) ==>
        var id := old(base.store.nextId);
        var obj := Keyed(base.serializer.load(request, None), id);
        && id !in old(base.store.entities)
        && base.store.entities == old(base.store.entities)[id := obj]
        && base.store.relation == old(base.store.relation)[parent := old(base.store.relation)[parent] + [id]]
        && base.store.log == old(base.store.log) + CommitProtocol(POST, id)
        && base.store.commits == old(base.store.commits) + 1
        && base.store.nextId == old(base.store.nextId) + 1
        && base.store.parents == old(base.store.parents)
        && r == Tuple([Dict(base.serializer.dump(obj)), Int(201)])
    {
      var store := base.store;
      if parent !in store.parents || !base.truthy(store.parents[parent]) {
        return NotFound;
      }
      var resourceId := GetOrNull(request, "id");
      if !resourceId.Null? {
        r := AppendExistent(parent, resourceId);
        return;
      }
      var id := store.Add(base.serializer.load(request, None));
      assert id !in store.relation[parent];
      store.Append(parent, id);
      id := base.SaveModel(Some(id), store.entities[id], POST);
      r := Tuple([Dict(base.serializer.dump(store.entities[id])), Int(201)]);
    }

    /**
     * `append_existent`: 404 with nothing changed when no row has the key; otherwise that row is
     * attached to the parent's collection (where it stays if it is there already) and committed,
     * with no hooks and no new row.
     */
    method AppendExistent(parent: Id, resourceId: Value) returns (r: Value)
      requires base.store.Valid() && parent in base.store.relation
      modifies base.store
      ensures base.store.Valid()
      ensures var key := KeyOf(resourceId);
        if key.None? || key.value !in old(base.store.entities) then
          r == NotFound && unchanged(base.store)
        else
          && base.store.relation == old(base.store.relation)[parent := Attach(old(base.store.relation)[parent], key.value)]
          && base.store.entities == old(base.store.entities) && base.store.nextId == old(base.store.nextId)
          && base.store.log == old(base.store.log) + [Event.Commit]
          && base.store.commits == old(base.store.commits) + 1
          && base.store.parents == old(base.store.parents)
          && r == Tuple([Dict(base.serializer.dump(base.store.entities[key.value])), Int(200)])
    {
      var store := base.store;
      var key := KeyOf(resourceId);
      if key.None? || key.value !in store.entities {
        return NotFound;
      }
      var resourceObj := store.entities[key.value];
      store.Append(parent, key.value);
      store.Commit();
      r := Tuple([Dict(base.serializer.dump(resourceObj)), Int(200)]);
    }

    /**
     * `put`: 404 with nothing changed unless the child is in the parent's collection and truthy;
     * otherwise the merged document is loaded into it and saved, tagged PUT exactly when the child
     * is still truthy after that load.
     */
    method Put(parent: Id, id: Id, request: Document) returns (r: Value)
      requires base.store.Valid()
      modifies base.store
      ensures base.store.Valid()
      ensures var found := old(QueryRelatedObj(parent, id));
        found.None? || !base.truthy(found.value) ==> r == NotFound && unchanged(base.store)
      ensures var found := old(QueryRelatedObj(parent, id));
        found.Some? && base.truthy(found.value) ==>
          var obj := base.serializer.load(Update(base.serializer.dump(found.value), request), found);
          && base.store.entities == old(base.store.entities)[id := obj]
          && base.store.log == old(base.store.log) + CommitProtocol(if base.truthy(obj) then PUT else POST, id)
          && base.store.commits == old(base.store.commits) + 1
          && base.store.nextId == old(base.store.nextId)
          && base.store.parents == old(base.store.parents) && base.store.relation == old(base.store.relation)
          && r == Dict(base.serializer.dump(obj))
    {
      var requestedObj := QueryRelatedObj(parent, id);
      if requestedObj.None? || !base.truthy(requestedObj.value) {
        return NotFound;
      }
      var serialized := Update(base.serializer.dump(requestedObj.value), request);
      var saved := base.SaveSerialized(serialized, Some(id));
      r := Dict(saved);
    }

    /**
     * `delete`: 404 with nothing changed unless the child is in the parent's collection and
     * truthy; otherwise the row goes in one commit.
     */
    method Delete(parent: Id, id: Id) returns (r: Value)
      requires base.store.Valid()
      modifies base.store
      ensures base.store.Valid()
      ensures var found := old(QueryRelatedObj(parent, id));
        found.None? || !base.truthy(found.value) ==> r == NotFound && unchanged(base.store)
      ensures var found := old(QueryRelatedObj(parent, id));
        found.Some? && base.truthy(found.value) ==>
          && base.store.entities == old(base.store.entities) - {id}
          && base.store.relation == (map p | p in old(base.store.relation) :: Without(old(base.store.relation)[p], id))
          && base.store.log == old(base.store.log) + [Event.Commit]
          && base.store.commits == old(base.store.commits) + 1
          && base.store.nextId == old(base.store.nextId) && base.store.parents == old(base.store.parents)
          && r == Deleted
    {
      var requestedObj := QueryRelatedObj(parent, id);
      if requestedObj.None? || !base.truthy(requestedObj.value) {
        return NotFound;
      }
      var store := base.store;
      store.Delete(id);
      store.Commit();
      r := Deleted;
    }
  }

  class CollectionPropertyResource {
    const base: BaseResource
    /** The parent's collection property, by its items. */
    const property: Entity -> seq<Entity>
    /** Whether the property is a query that can paginate, rather than a plain list. */
    const dynamic: bool

    constructor (store: Store, serializer: Serializer, truthy: Entity -> bool, decorators: seq<Decorator>,
                 property: Entity -> seq<Entity>, dynamic: bool)
      ensures base.store == store && base.serializer == serializer && base.truthy == truthy
      ensures base.dispatch == Wrap(decorators) && this.property == property && this.dynamic == dynamic
    {
      base := new BaseResource(store, serializer, truthy, decorators);
      this.property := property;
      this.dynamic := dynamic;
    }

    /**
     * `get`: 404 for an absent parent; otherwise the parent's property, listed or handed to
     * `query_from_request`. The id is not used.
     */
    function Get(parent: Id, id: Option<Id>, query: Scope -> Value): (r: Value)
      reads base.store
      ensures parent !in base.store.parents ==> r == NotFound
      ensures parent in base.store.parents && !dynamic ==>
        var items := property(base.store.parents[parent]);
        && r.List? && |r.items| == |items|
        && forall i :: 0 <= i < |items| ==> r.items[i] == Dict(base.serializer.dump(items[i]))
      ensures parent in base.store.parents && dynamic ==>
        r == query(Collection(property(base.store.parents[parent])))
    {
      if parent !in base.store.parents then NotFound
      else
        var items := property(base.store.parents[parent]);
        if dynamic then query(Collection(items)) else List(Dumps(items, base.serializer.dump))
    }

    /** `post` is refused with 405 whatever the parent; as a function it can change nothing. */
    function Post(parent: Id): (r: Value)
      ensures Unpack(r) == Triple(Str(PropertyPostRefused), Int(405), NoHeaders)
    {
      Tuple([Str(PropertyPostRefused), Int(405)])
    }
  }

  // ---------------------------------------------------------------------------------------------
  // Properties that relate several calls.
  // ---------------------------------------------------------------------------------------------

  /** The 404 result is answered with code 404 and the not-found message. */
  lemma NotFoundResponse()
    ensures Unpack(NotFound) == Triple(Str(NotFoundError), Int(404), NoHeaders)
    ensures Unpack(Deleted) == Triple(Str(""), Int(204), NoHeaders)
  {
  }

  /** A child that exists but is not in the parent's collection is not found by id. */
  lemma UnassociatedChildNotFound(res: ToManyRelationResource, parent: Id, id: Id, query: Scope -> Value)
    requires res.base.store.Valid() && id != 0
    requires parent in res.base.store.parents && id !in res.base.store.relation[parent]
    ensures res.QueryRelatedObj(parent, id).None?
    ensures res.Get(parent, Some(id), query) == NotFound
  {
  }

  /** `if id:` treats id 0 as no id: the collection is listed. */
  lemma ZeroIdLists(res: ToManyRelationResource, parent: Id, query: Scope -> Value)
    requires res.base.store.Valid()
    ensures res.Get(parent, Some(0), query) == res.Get(parent, None, query)
  {
  }

  /** The property resource's `get` gives the same result whatever id the route carries. */
  lemma PropertyGetIgnoresId(res: CollectionPropertyResource, parent: Id, a: Option<Id>, b: Option<Id>,
                             query: Scope -> Value)
    ensures res.Get(parent, a, query) == res.Get(parent, b, query)
  {
  }

  /** Deleting the same id twice: the second delete is a 404 that changes nothing. */
  method DeleteTwice(res: ModelResource, id: Id) returns (first: Value, second: Value)
    requires res.base.store.Valid() && id in res.base.store.entities
    modifies res.base.store
    ensures first == Deleted && second == NotFound
    ensures Unpack(second).code == Int(404)
    ensures res.base.store.entities == old(res.base.store.entities) - {id}
    ensures res.base.store.commits == old(res.base.store.commits) + 1
  {
    first := res.Delete(id);
    second := res.Delete(id);
  }

  /** Attaching the same existing child twice leaves it in the collection once, after two commits. */
  method AttachTwice(res: ToManyRelationResource, parent: Id, child: Id) returns (first: Value, second: Value)
    requires res.base.store.Valid() && parent in res.base.store.relation && child in res.base.store.entities
    modifies res.base.store
    ensures Unpack(first).code == Int(200) && first == second
    ensures parent in res.base.store.relation
    ensures res.base.store.relation[parent] == Attach(old(res.base.store.relation[parent]), child)
    ensures child in res.base.store.relation[parent] && Distinct(res.base.store.relation[parent])
    ensures res.base.store.commits == old(res.base.store.commits) + 2
  {
    var before := res.base.store.relation[parent];
    first := res.AppendExistent(parent, Int(child));
    AttachIdempotent(before, child);
    second := res.AppendExistent(parent, Int(child));
  }

  /** A child created through a parent's collection is then found through it by id. */
  method CreateThenGet(res: ToManyRelationResource, parent: Id, request: Document, query: Scope -> Value)
    returns (created: Value, fetched: Value)
    requires res.base.store.Valid() && GetOrNull(request, "id").Null?
    requires parent in res.base.store.parents && res.base.truthy(res.base.store.parents[parent])
    requires res.base.truthy(Keyed(res.base.serializer.load(request, None), res.base.store.nextId))
    modifies res.base.store
    ensures Unpack(created).code == Int(201)
    ensures var obj := Keyed(res.base.serializer.load(request, None), old(res.base.store.nextId));
      Unpack(fetched) == Triple(Dict(res.base.serializer.dump(obj)), Int(200), NoHeaders)
    ensures Unpack(created).data == Unpack(fetched).data
  {
    var id := res.base.store.nextId;
    created := res.Post(parent, request);
    fetched := res.Get(parent, Some(id), query);
  }
}

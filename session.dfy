/**
 * The database session the resources write through, reduced to what the handlers observe: a
 * table of the resource's entities, a table of parent entities with each parent's related
 * children, the commits made and the ordered log of commits and serializer commit hooks.
 */
module Session {
  import opened Values

  /** A primary key. */
  type Id = int

  /** A mapped object; its attributes are what `setattr` changes. */
  datatype Entity = Entity(attrs: Document)

  /**
   * The object once the session has flushed it under the key `id`: its `id` attribute is the key,
   * and every other attribute is as it was.
   */
  function Keyed(e: Entity, id: Id): (k: Entity)
    ensures k.attrs.Keys == e.attrs.Keys + {"id"} && k.attrs["id"] == Int(id)
    ensures forall a :: a in e.attrs && a != "id" ==> k.attrs[a] == e.attrs[a]
  {
    Entity(e.attrs["id" := Int(id)])
  }

  /** The method tag `_save_model` receives. */
  datatype Method = POST | PUT

  /** A commit of the session, or one of the serializer's commit hooks firing for an entity. */
  datatype Event =
    | BeforeCommit(tag: Method, id: Id)
    | Commit
    | AfterCommit(tag: Method, id: Id)

  /** The number of commits in a log. */
  function Commits(log: seq<Event>): (n: nat)
    ensures n <= |log|
  {
    if log == [] then 0 else Commits(log[..|log| - 1]) + (if log[|log| - 1] == Commit then 1 else 0)
  }

  lemma {:induction false} CommitsAppend(a: seq<Event>, b: seq<Event>)
    ensures Commits(a + b) == Commits(a) + Commits(b)
    decreases |b|
  {
    if b == [] {
      assert a + b == a;
    } else {
      var c := b[..|b| - 1];
      CommitsAppend(a, c);
      assert (a + b)[..|a + b| - 1] == a + c;
    }
  }

  /** `s` with every occurrence of `x` removed. */
  function Without(s: seq<Id>, x: Id): (r: seq<Id>)
    ensures forall y :: y in r <==> y in s && y != x
    ensures forall i :: 0 <= i < |r| ==> r[i] in s && r[i] != x
    ensures |r| <= |s|
  {
    if s == [] then []
    else
      var rest := Without(s[1..], x);
      assert forall y :: y in s[1..] ==> y in s;
      (if s[0] == x then [] else [s[0]]) + rest
  }

  /** No key occurs twice. */
  predicate Distinct(s: seq<Id>) {
    forall i, j :: 0 <= i < j < |s| ==> s[i] != s[j]
  }

  lemma {:induction false} WithoutDistinct(s: seq<Id>, x: Id)
    requires Distinct(s)
    ensures Distinct(Without(s, x))
    decreases |s|
  {
    if s != [] {
      var rest := s[1..];
      assert Distinct(rest) by {
        forall i, j | 0 <= i < j < |rest| ensures rest[i] != rest[j] {
          assert rest[i] == s[i + 1] && rest[j] == s[j + 1];
        }
      }
      WithoutDistinct(rest, x);
      assert s[0] !in rest by {
        forall k | 0 <= k < |rest| ensures rest[k] != s[0] {
          assert rest[k] == s[k + 1];
        }
      }
      var r := Without(rest, x);
      var h := if s[0] == x then [] else [s[0]];
      assert Without(s, x) == h + r;
      forall i, j | 0 <= i < j < |h + r| ensures (h + r)[i] != (h + r)[j] {
        if |h| == 1 && i == 0 {
          assert (h + r)[j] == r[j - 1] && r[j - 1] in r;
        } else {
          assert (h + r)[i] == r[i - |h|] && (h + r)[j] == r[j - |h|];
        }
      }
    }
  }

  /**
   * The collection after `collection.append(x)`, as the committed relationship reads it back:
   * a child already in the collection stays where it is, a new one comes last.
   */
  function Attach(s: seq<Id>, x: Id): (r: seq<Id>)
    ensures forall y :: y in r <==> y in s || y == x
    ensures Distinct(s) ==> Distinct(r)
    ensures |s| <= |r| <= |s| + 1
  {
    if x in s then s else s + [x]
  }

  /** Attaching the same child a second time changes nothing. */
  lemma AttachIdempotent(s: seq<Id>, x: Id)
    ensures Attach(Attach(s, x), x) == Attach(s, x)
  {
  }

  /** The entities `ids` name, in order. */
  function Lookup(ids: seq<Id>, table: map<Id, Entity>): (r: seq<Entity>)
    requires forall i :: 0 <= i < |ids| ==> ids[i] in table
    ensures |r| == |ids|
    ensures forall i :: 0 <= i < |ids| ==> r[i] == table[ids[i]]
  {
    if ids == [] then [] else [table[ids[0]]] + Lookup(ids[1..], table)
  }

  class Store {
    /** The resource's table. */
    var entities: map<Id, Entity>
    /** The table of the model the relation starts from. */
    var parents: map<Id, Entity>
    /** Each parent's related children, in collection order. */
    var relation: map<Id, seq<Id>>
    var commits: nat
    var log: seq<Event>
    /** The key the next inserted entity receives. */
    var nextId: Id

    ghost predicate Valid()
      reads this
    {
      && 1 <= nextId
      && relation.Keys == parents.Keys
      && (forall id :: id in entities ==> id < nextId)
      && (forall p, c :: p in relation && c in relation[p] ==> c in entities)
      && (forall p, i :: p in relation && 0 <= i < |relation[p]| ==> relation[p][i] in entities)
      && (forall p :: p in relation ==> Distinct(relation[p]))
      && commits == Commits(log)
    }

    /** A session over the given parents, none of which has children yet, and an empty table. */
    constructor (parents: map<Id, Entity>)
      ensures Valid()
      ensures this.parents == parents && entities == map[]
      ensures relation == map p | p in parents :: []
      ensures commits == 0 && log == [] && nextId == 1
    {
      this.parents := parents;
      entities := map[];
      relation := map p | p in parents :: [];
      commits := 0;
      log := [];
      nextId := 1;
    }

    /**
     * `session.add` of a new object, flushed: it is inserted under a key not in use, which
     * becomes its `id` attribute.
     */
    method Add(e: Entity) returns (id: Id)
      requires Valid()
      modifies this
      ensures Valid()
      ensures id == old(nextId) && id !in old(entities)
      ensures entities == old(entities)[id := Keyed(e, id)]
      ensures nextId == old(nextId) + 1
      ensures parents == old(parents) && relation == old(relation)
      ensures commits == old(commits) && log == old(log)
    {
      id := nextId;
      entities := entities[id := Keyed(e, id)];
      nextId := nextId + 1;
    }

    /** A persistent object's attributes are changed. */
    method Write(id: Id, e: Entity)
      requires Valid() && id in entities
      modifies this
      ensures Valid()
      ensures entities == old(entities)[id := e]
      ensures nextId == old(nextId)
      ensures parents == old(parents) && relation == old(relation)
      ensures commits == old(commits) && log == old(log)
    {
      entities := entities[id := e];
    }

    /** `session.delete` and `flush`: the row goes, and so does its membership in every collection. */
    method Delete(id: Id)
      requires Valid() && id in entities
      modifies this
      ensures Valid()
      ensures entities == old(entities) - {id}
      ensures relation == map p | p in old(relation) :: Without(old(relation)[p], id)
      ensures nextId == old(nextId) && parents == old(parents)
      ensures commits == old(commits) && log == old(log)
    {
      forall p | p in relation ensures Distinct(Without(relation[p], id)) {
        WithoutDistinct(relation[p], id);
      }
      entities := entities - {id};
      relation := map p | p in relation :: Without(relation[p], id);
    }

    /** `collection.append(child)` on a parent's relation collection, committed and read back. */
    method Append(parent: Id, child: Id)
      requires Valid() && parent in relation && child in entities
      modifies this
      ensures Valid()
      ensures relation == old(relation)[parent := Attach(old(relation)[parent], child)]
      ensures entities == old(entities) && nextId == old(nextId) && parents == old(parents)
      ensures commits == old(commits) && log == old(log)
    {
      relation := relation[parent := Attach(relation[parent], child)];
    }

    /** `session.commit()`. */
    method Commit()
      requires Valid()
      modifies this
      ensures Valid()
      ensures commits == old(commits) + 1 && log == old(log) + [Event.Commit]
      ensures entities == old(entities) && nextId == old(nextId)
      ensures parents == old(parents) && relation == old(relation)
    {
      CommitsAppend(log, [Event.Commit]);
      log := log + [Event.Commit];
      commits := commits + 1;
    }

    /** A serializer commit hook runs; only the fact that it ran is recorded. */
    method Hook(e: Event)
      requires Valid() && !e.Commit?
      modifies this
      ensures Valid()
      ensures log == old(log) + [e] && commits == old(commits)
      ensures entities == old(entities) && nextId == old(nextId)
      ensures parents == old(parents) && relation == old(relation)
    {
      CommitsAppend(log, [e]);
      log := log + [e];
    }
  }
}

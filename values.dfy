/**
 * The Python values a resource handler reads and returns: request and serialized documents
 * (dicts from attribute names to values) and the handler's return value, which `unpack` turns
 * into the (data, code, headers) triple the view answers with.
 */
module Values {
  datatype Value =
    | Null
    | Bool(b: bool)
    | Int(i: int)
    | Str(s: string)
    | List(items: seq<Value>)
    | Dict(entries: map<string, Value>)
    | Tuple(elements: seq<Value>)

  /** A decoded request body, or what the entity serializer dumps. */
  type Document = map<string, Value>

  /** `dict.get(key, None)`. */
  function GetOrNull(d: Document, key: string): (v: Value)
    ensures key in d ==> v == d[key]
    ensures key !in d ==> v == Null
  {
    if key in d then d[key] else Null
  }

  /**
   * `d.update(u)`: every key of `u` is set to its value in `u`; the other keys of `d` keep
   * their values.
   */
  function Update(d: Document, u: Document): (r: Document)
    ensures r.Keys == d.Keys + u.Keys
    ensures forall k :: k in u ==> r[k] == u[k]
    ensures forall k :: k in d && k !in u ==> r[k] == d[k]
  {
    d + u
  }

  /** Updating with an empty document changes nothing, and updating twice with `u` is updating once. */
  lemma UpdateIdentityAndIdempotence(d: Document, u: Document)
    ensures Update(d, map[]) == d
    ensures Update(Update(d, u), u) == Update(d, u)
  {
    assert Update(d, map[]).Keys == d.Keys;
    assert Update(Update(d, u), u).Keys == Update(d, u).Keys;
  }

  /** The triple `unpack` returns: data, status code and headers. */
  datatype Triple = Triple(data: Value, code: Value, headers: Value)

  const NoHeaders: Value := Dict(map[])

  /**
   * `unpack(value)`: a non-tuple is data with code 200 and no headers; a tuple of three is
   * taken apart as (data, code, headers), a tuple of two as (data, code) with no headers; a tuple
   * of any other length is itself the data, with code 200.
   */
  function Unpack(v: Value): (r: Triple)
    ensures v.Tuple? && |v.elements| == 3 ==> r == Triple(v.elements[0], v.elements[1], v.elements[2])
    ensures v.Tuple? && |v.elements| == 2 ==> r == Triple(v.elements[0], v.elements[1], NoHeaders)
    ensures !(v.Tuple? && 2 <= |v.elements| <= 3) ==> r == Triple(v, Int(200), NoHeaders)
  {
    if !v.Tuple? then Triple(v, Int(200), NoHeaders)
    else if |v.elements| == 3 then Triple(v.elements[0], v.elements[1], v.elements[2])
    else if |v.elements| == 2 then Triple(v.elements[0], v.elements[1], NoHeaders)
    else Triple(v, Int(200), NoHeaders)
  }

  /** The 3-tuple a triple is returned as. */
  function Pack(t: Triple): (v: Value)
    ensures v.Tuple? && |v.elements| == 3
  {
    Tuple([t.data, t.code, t.headers])
  }

  /** `unpack` is a normal form: packing its result and unpacking again gives the same triple. */
  lemma UnpackNormalForm(v: Value)
    ensures Unpack(Pack(Unpack(v))) == Unpack(v)
    ensures Pack(Unpack(Pack(Unpack(v)))) == Pack(Unpack(v))
  {
  }

  /** A handler result of the form `(data, code)` is answered with exactly that code. */
  lemma PairCode(data: Value, code: int)
    ensures Unpack(Tuple([data, Int(code)])).code == Int(code)
    ensures Unpack(Tuple([data, Int(code)])).data == data
  {
  }

  /** A non-tuple result, such as a serialized document, is answered with code 200. */
  lemma PlainIsOk(v: Value)
    requires !v.Tuple?
    ensures Unpack(v).code == Int(200) && Unpack(v).data == v
  {
  }
}

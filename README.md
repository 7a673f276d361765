# flask-restalchemy core, modelled in Dafny

This project models two parts of flask-restalchemy, a library that exposes SQLAlchemy models as
REST resources on Flask.

1. The date-time string codec, `DateTimeSerializer`.
   - `dump` writes `isoformat()` followed by a literal `Z`.
   - `load` matches a loose ISO 8601 / RFC 3339 (section 5.6) pattern at the start of the text.
     It converts the named groups with `int()` and builds a `datetime`, whose UTC offset comes
     from `_parse_tzinfo`.
2. The REST resources.
   - `BaseResource` wraps dispatch in the request decorators and holds the save helpers.
   - `ModelResource` serves one table.
   - `ToManyRelationResource` serves a parent's related children.
   - `CollectionPropertyResource` serves a read-only collection property of a parent.
   - `unpack` turns a handler's value into the (data, code, headers) triple.

Files and modules:

- `wrappers.dfy` (`Wrappers`): `Option` and `Result`.
- `decimal.dfy` (`Decimal`): ASCII digit strings.
  - `DigitRun` is the greedy `\d+`.
  - `ToNat` is `int()` of a digit string.
  - `Pad` is `%0wd`.
- `datetime_serializer.dfy` (`DateTimeSerializer`): the codec.
  - The regular expression is a deterministic matcher, `Match`. It reads the mandatory
    `Y-m-d[T ]H:M` part at fixed positions after the leading digit run, then the greedy optional
    seconds, fraction and zone groups, each from a position of the text.
  - `Load`, `ParseTzinfo` and `Dump` follow the source.
  - `ParseTzinfoCorrected` and `LoadCorrected` are the corrected offset parsing (see Findings).
- `datetime_properties.dfy` (`DateTimeProperties`): what the codec promises.
  - The matcher agrees with the grammar: `Render` of any well-formed groups is read back, and
    whatever matches begins with the rendering of what it matched.
  - The match is the longest one: each optional group is taken whenever it can be.
  - `load` ignores the rest of the text, and the separator does not matter.
  - The group-to-field quirks: absent seconds and fractions become 0, the fraction is a raw
    microsecond count, and a two-digit year stays two-digit.
  - `load(dump(d))`: the round trip holds for naive values (they come back in UTC) and for the
    offsets the as-written parser survives; the corrected parser makes it hold for every offset.
- `values.dfy` (`Values`): the Python values a handler sees.
  - Request and serialized documents.
  - The handler result.
  - `dict.update` and `dict.get`.
  - `unpack`.
- `session.dfy` (`Session`): the database session as a `Store` class.
  - The resource's table, the parents' table and each parent's related children.
  - The new-key counter.
  - The commit count, and the ordered log of commits and serializer commit hooks.
- `resources.dfy` (`Resources`): the resource classes, as classes over a shared `Store`.
  - The source's inheritance is composition: each class holds its `BaseResource`.
  - The entity serializer's `dump`/`load` are function values.
  - Python truthiness of a mapped object is a function value.
  - `query_from_request` is a function value applied to the table or to the relationship's items.
  - The relationship's "dynamic" (paginable query) nature is a flag.

Two points of the code worth stating:

- Request decorators: the constructor rebinds `dispatch_request` to each decorator in turn, so
  the last one is outermost (`WrapOrder`).
- The PUT tag: `_save_serialized` tests `if existing_model` after `load` has written the
  document into that object, so the tag is PUT exactly when there is an existing object and it
  is truthy once loaded (`BaseResource.SaveSerialized`).

## Model

| member | source | states |
|---|---|---|
| Decimal.DigitRunUnique | flask_restalchemy/serialization/serializer.py:20-22 | the greedy `\d` run at a position is the only digit run there that ends at a non-digit or at the end of the text |
| Decimal.DigitRunDigits | flask_restalchemy/serialization/serializer.py:20-22 | every character the greedy run covers is a digit |
| Decimal.DigitRunCovers | flask_restalchemy/serialization/serializer.py:22 | any run of digits at a position is covered by the greedy run there |
| Decimal.Pad | flask_restalchemy/serialization/serializer.py:29 | the zero-padded field has exactly the width, is all digits, and `int()` reads the number back from it |
| Decimal.ToNatLeadingZero | flask_restalchemy/serialization/serializer.py:38 | a leading zero does not change the value `int()` reads |
| Decimal.ToNatPair | flask_restalchemy/serialization/serializer.py:47-48 | two digits read as ten times the first plus the second |
| Decimal.ToNat | flask_restalchemy/serialization/serializer.py:37-38 | `int()` of `k` ASCII digits is a natural number below `10^k` |
| DateTimeSerializer.SecondsAt | flask_restalchemy/serialization/serializer.py:22 | a seconds group read at a position is two digits that fit in the text |
| DateTimeSerializer.FractionAt | flask_restalchemy/serialization/serializer.py:22 | a fraction group read at a position is one or more digits that fit in the text |
| DateTimeSerializer.ZoneAt | flask_restalchemy/serialization/serializer.py:23 | a zone group read at a position fits in the text and is `Z`, `z`, `±HH:MM` or `±HHMM` |
| DateTimeSerializer.OptionalGroups | flask_restalchemy/serialization/serializer.py:22-23 | the optional groups read in turn are each of their group's shape |
| DateTimeSerializer.Match | flask_restalchemy/serialization/serializer.py:20-25 | a match has well-formed groups: 2-4 year digits, two-digit fields, `T` or space, well-formed optional groups |
| DateTimeSerializer.Render | flask_restalchemy/serialization/serializer.py:20-23 | the text a match with these groups consumes starts with the mandatory `Y-m-d[T ]H:M` part; `MatchRender` and `NoMatchIff` tie it to the matcher |
| DateTimeSerializer.ParseTzinfo | flask_restalchemy/serialization/serializer.py:43-54 | no zone gives a naive value, `Z`/`z` gives offset 0, and every numeric zone gives an offset |
| DateTimeSerializer.SignedInt | flask_restalchemy/serialization/serializer.py:47 | `int()` of a sign and digits: the magnitude is `int()` of the digits, a negative value has the sign `-`, and `-` never gives a positive value (`int("-00")` is 0) |
| DateTimeSerializer.Fields | flask_restalchemy/serialization/serializer.py:36-38 | the constructor arguments: a year below 10000, month, day, hour, minute and second below 100, and the parsed offset unchanged |
| DateTimeSerializer.Construct | flask_restalchemy/serialization/serializer.py:36-40 | construction succeeds exactly when the constructors' argument validation accepts the fields, and then returns those fields unchanged |
| DateTimeSerializer.Load | flask_restalchemy/serialization/serializer.py:31-41 | the parse error is raised exactly when the pattern does not match, and a success passes that validation |
| DateTimeSerializer.FormatOffset | flask_restalchemy/serialization/serializer.py:29 | the offset `isoformat` writes is always `±HH:MM` |
| DateTimeSerializer.IsoFormat | flask_restalchemy/serialization/serializer.py:29 | `isoformat()` has 19 characters, 7 more with a non-zero microsecond and 6 more with an offset; a `-` follows the year and `T` separates the date from the time |
| DateTimeSerializer.Dump | flask_restalchemy/serialization/serializer.py:28-29 | the dump is non-empty and ends with `Z` |
| DateTimeSerializer.ParseTzinfoCorrected | flask_restalchemy/serialization/serializer.py:46-52 | the corrected parser has the same cases as `ParseTzinfo`: naive for no zone, 0 for `Z`/`z` |
| DateTimeSerializer.LoadCorrected | flask_restalchemy/serialization/serializer.py:31-41 | with the corrected parser, the parse error is raised exactly when the pattern does not match |
| DateTimeProperties.MatchRender | flask_restalchemy/serialization/serializer.py:20-25 | matching the rendering of well-formed groups gives the same groups back, also when followed by text that cannot extend the match |
| DateTimeProperties.MatchSound | flask_restalchemy/serialization/serializer.py:20-25 | what `Match` returns is well formed, and its rendering is a prefix of the input |
| DateTimeProperties.LongestMatch | flask_restalchemy/serialization/serializer.py:20-25 | the greedy optional groups: whatever well-formed groups are rendered at the start of the input, `Match` consumes at least as much |
| DateTimeProperties.TailGreedy | flask_restalchemy/serialization/serializer.py:22-23 | the seconds, fraction and zone groups together consume at least the tail of any well-formed groups found at that position |
| DateTimeProperties.AfterSecondsGreedy | flask_restalchemy/serialization/serializer.py:22-23 | after the seconds, the fraction and zone groups consume at least the fraction and zone of any groups found there |
| DateTimeProperties.FractionGreedy | flask_restalchemy/serialization/serializer.py:22 | `\.(\d+)` takes a `.` and every digit after it |
| DateTimeProperties.ZoneGreedy | flask_restalchemy/serialization/serializer.py:23 | the zone group takes any zone token that occurs at its position |
| DateTimeProperties.ReadersGreedy | flask_restalchemy/serialization/serializer.py:22-23 | the three optional readers, applied in turn, consume at least the tail of any well-formed groups at their position |
| DateTimeProperties.OptionalLength | flask_restalchemy/serialization/serializer.py:22-23 | what the optional groups consume is what the three readers take in turn |
| DateTimeProperties.MatchLength | flask_restalchemy/serialization/serializer.py:20-23 | a match consumes the year, the fixed-width part and then what the optional groups take |
| DateTimeProperties.NoMatchIff | flask_restalchemy/serialization/serializer.py:32-34 | the match fails exactly when no rendering of well-formed groups is a prefix of the input |
| DateTimeProperties.LoadFailsIff | flask_restalchemy/serialization/serializer.py:32-34 | `load` raises its parse error exactly when no rendering of well-formed groups is a prefix of the input |
| DateTimeProperties.LoadIgnoresRest | flask_restalchemy/serialization/serializer.py:32-35 | a matching text loads the same as the matched prefix alone |
| DateTimeProperties.LoadAfterZone | flask_restalchemy/serialization/serializer.py:23 | after a zone, any trailing text is ignored |
| DateTimeProperties.TrailingTextExample | flask_restalchemy/serialization/serializer.py:23 | `2020-01-01 10:00:00Zjunk` loads as `2020-01-01 10:00:00Z` |
| DateTimeProperties.SeparatorIrrelevant | flask_restalchemy/serialization/serializer.py:21 | putting `T` or a space at the separator position gives the same datetime or rejection, or the parse error for both |
| DateTimeProperties.FieldsIgnoreSeparator | flask_restalchemy/serialization/serializer.py:21 | the separator plays no part in the constructor arguments |
| DateTimeProperties.AbsentFieldsAreZero | flask_restalchemy/serialization/serializer.py:38 | an absent seconds group gives second 0, and an absent fraction gives microsecond 0 |
| DateTimeProperties.FractionIsRawCount | flask_restalchemy/serialization/serializer.py:38 | the microsecond is `int()` of the fraction digits, not the digits scaled as a decimal fraction |
| DateTimeProperties.FractionHalfSecondExample | flask_restalchemy/serialization/serializer.py:38 | `...10:00:00.5` loads with 5 microseconds |
| DateTimeProperties.FractionMicrosExample | flask_restalchemy/serialization/serializer.py:38 | `...10:00:00.000123` loads with 123 microseconds |
| DateTimeProperties.ShortYearExample | flask_restalchemy/serialization/serializer.py:20 | `20-01-01T10:00` loads as year 20 with second 0 |
| DateTimeProperties.ZoneKinds | flask_restalchemy/serialization/serializer.py:43-54 | a loaded value is naive exactly when there is no zone, and `Z`/`z` gives UTC |
| DateTimeProperties.NumericOffset | flask_restalchemy/serialization/serializer.py:46-52 | hours are the signed first three characters and minutes the last two; the minutes are negated only when the sign is `-` and the hours are 0 |
| DateTimeProperties.OffsetPlusColonExample | flask_restalchemy/serialization/serializer.py:46-52 | `+05:30` gives +330 minutes |
| DateTimeProperties.OffsetPlusCompactExample | flask_restalchemy/serialization/serializer.py:46-52 | `+0530` gives +330 minutes, as `+05:30` does |
| DateTimeProperties.OffsetMinusZeroHoursExample | flask_restalchemy/serialization/serializer.py:46-52 | `-00:30` gives -30 minutes: with zero hours the minutes are negated |
| DateTimeProperties.OffsetMinusHoursExample | flask_restalchemy/serialization/serializer.py:46-52 | `-05:30` gives -270 minutes (−4:30), not −330 |
| DateTimeProperties.LoadOfRender | flask_restalchemy/serialization/serializer.py:31-41 | loading a rendering constructs the fields of its groups with the parsed offset |
| DateTimeProperties.DumpIsRender | flask_restalchemy/serialization/serializer.py:28-29 | a dump is the rendering of its groups, with a trailing `Z` left over after a numeric zone |
| DateTimeProperties.DumpFields | flask_restalchemy/serialization/serializer.py:28-41 | the dump matches as its groups, and those groups give back every calendar field |
| DateTimeProperties.LoadDumpNaive | flask_restalchemy/serialization/serializer.py:28-41 | a naive value loads back from its dump as the same value in UTC |
| DateTimeProperties.OffsetRoundTrip | flask_restalchemy/serialization/serializer.py:46-52 | the offset parser inverts the offset `isoformat` writes exactly when the offset is non-negative, under an hour, or whole hours |
| DateTimeProperties.LoadDumpAware | flask_restalchemy/serialization/serializer.py:28-41 | an aware value loads back from its dump exactly when its offset survives the parser |
| DateTimeProperties.NegativeOffsetCounterexample | flask_restalchemy/serialization/serializer.py:49-52 | a value at UTC-05:30 dumps as `-05:30`; the as-written parser reads back -270 minutes and the corrected one -330, so the round trip fails |
| DateTimeProperties.OffsetRoundTripCorrected | flask_restalchemy/serialization/serializer.py:46-52 | the corrected parser inverts the offset `isoformat` writes for every offset strictly inside one day |
| DateTimeProperties.CorrectedAgreesIff | flask_restalchemy/serialization/serializer.py:49-51 | the corrected and as-written parsers agree exactly on positive zones and zones whose hours or minutes are 0 |
| DateTimeProperties.LoadCorrectedDump | flask_restalchemy/serialization/serializer.py:31-41 | with the corrected parser, every value loads back from its dump: aware ones exactly, naive ones in UTC |
| Values.GetOrNull | src/flask_restalchemy/resources/resources.py:181 | `dict.get(key, None)`: the value under the key, or null when the key is absent |
| Values.Update | src/flask_restalchemy/resources/resources.py:100 | `dict.update`: the keys of both, the update's values winning, the others unchanged |
| Values.UpdateIdentityAndIdempotence | src/flask_restalchemy/resources/resources.py:100 | an empty update changes nothing, and applying the same update twice is applying it once |
| Values.Unpack | src/flask_restalchemy/resources/resources.py:284-301 | a 3-tuple is (data, code, headers); a 2-tuple is (data, code) with no headers; anything else is data with code 200 and no headers |
| Values.UnpackNormalForm | src/flask_restalchemy/resources/resources.py:284-301 | unpacking the packed triple gives the same triple again |
| Values.PairCode | src/flask_restalchemy/resources/resources.py:295-297 | a `(data, code)` result is answered with that data and that code |
| Values.PlainIsOk | src/flask_restalchemy/resources/resources.py:286-287 | a non-tuple result is the data, with code 200 |
| Session.Without | src/flask_restalchemy/resources/resources.py:109-111 | removing a deleted row from a collection keeps exactly the other members |
| Session.WithoutDistinct | src/flask_restalchemy/resources/resources.py:109-111 | removing a deleted row from a collection without duplicates leaves it without duplicates |
| Session.Lookup | src/flask_restalchemy/resources/resources.py:162 | the relationship's items are the rows its keys name, in order |
| Session.Attach | src/flask_restalchemy/resources/resources.py:188 | the committed collection after `append` holds exactly its old members and the child, at most one more element, and stays free of duplicates |
| Session.AttachIdempotent | src/flask_restalchemy/resources/resources.py:198-199 | attaching the same child a second time changes nothing |
| Session.Store.constructor | src/flask_restalchemy/resources/resources.py:31 | the abstract session `session_getter` returns, set up with the given parents, each with an empty collection, an empty table, no commits, an empty log and 1 as the first key |
| Session.Keyed | src/flask_restalchemy/resources/resources.py:46-48 | the object after the flush: its `id` attribute is the key it was given, and every other attribute is unchanged |
| Session.Store.Add | src/flask_restalchemy/resources/resources.py:46-47 | `session.add` of a new object, flushed by the commit, inserts it under a fresh key, which becomes its `id` attribute, and changes nothing else |
| Session.Store.Write | src/flask_restalchemy/resources/resources.py:69 | loading into a persistent object replaces that row only |
| Session.Store.Delete | src/flask_restalchemy/resources/resources.py:109-111 | delete and flush remove the row and its membership in every collection |
| Session.Store.Append | src/flask_restalchemy/resources/resources.py:188 | attaching a child to a collection puts it at the end unless it is there already, keeps every collection free of duplicates, and changes nothing else |
| Session.Store.Commit | src/flask_restalchemy/resources/resources.py:60 | a commit adds one commit to the count and the log |
| Session.Store.Hook | src/flask_restalchemy/resources/resources.py:54-58 | a serializer hook is logged and is not a commit |
| Resources.WrapOrder | src/flask_restalchemy/resources/resources.py:32-34 | the request meets the decorators in reverse list order: the last decorator is outermost |
| Resources.Wrap | src/flask_restalchemy/resources/resources.py:32-34 | no decorators leave dispatch undecorated, and otherwise the last decorator is the outermost layer |
| Resources.BaseResource.constructor | src/flask_restalchemy/resources/resources.py:14-34 | after construction, dispatch is the decorators wrapped in list order (none for an empty list) |
| Resources.Dumps | src/flask_restalchemy/resources/resources.py:168 | the listing dumps every item, in order |
| Resources.CommitProtocol | src/flask_restalchemy/resources/resources.py:50-66 | saving logs the before-hook of the tag, exactly one commit, then the after-hook of the same tag |
| Resources.KeyOf | src/flask_restalchemy/resources/resources.py:181 | a request id names a key exactly when it is an integer, and the key is that integer |
| Resources.BaseResource.SaveFromRequest | src/flask_restalchemy/resources/resources.py:41-48 | the request loaded with the extra attributes set on it is inserted and committed once, with no hooks, and its dump, holding the new key as `id`, is returned |
| Resources.SetAttributes | src/flask_restalchemy/resources/resources.py:44-45 | after the `setattr` loop, every extra attribute holds its value and every other attribute keeps the loaded one |
| Resources.BaseResource.SaveModel | src/flask_restalchemy/resources/resources.py:50-66 | the object is inserted under a fresh key that becomes its `id`, or written over the target row; then the tag's hooks run around exactly one commit |
| Resources.BaseResource.SaveSerialized | src/flask_restalchemy/resources/resources.py:68-74 | the document is loaded into the existing object or a new one and saved; the tag is PUT exactly when there is an existing object and it is truthy after the load has written into it; the dump of the saved object is returned, holding the new key as `id` for a new object |
| Resources.ModelResource.constructor | src/flask_restalchemy/resources/resources.py:14-34 | the resource keeps its session, serializer and truthiness, with dispatch wrapped in the decorators |
| Resources.ModelResource.Get | src/flask_restalchemy/resources/resources.py:83-91 | with an id: 404 exactly when no row has it, otherwise its dump with code 200; without one, the query over the whole table |
| Resources.ModelResource.Put | src/flask_restalchemy/resources/resources.py:93-102 | an unknown id is a 404 that changes nothing; otherwise the row's dump, updated with the request, is loaded into it and saved with the hooks of its tag (PUT when the loaded row is truthy) around one commit; the new dump is returned |
| Resources.ModelResource.Delete | src/flask_restalchemy/resources/resources.py:104-113 | an unknown id is a 404 that changes nothing; otherwise the row and its collection memberships go in one commit, answered with 204 |
| Resources.ModelResource.Post | src/flask_restalchemy/resources/resources.py:115-118 | the request becomes a new row under a fresh key, which is its `id`; the key counter moves on by one, and the row is saved with the POST hooks and answered with its dump and 201 |
| Resources.ToManyRelationResource.constructor | src/flask_restalchemy/resources/resources.py:128-144 | the resource keeps its session, serializer, truthiness and relationship kind, with dispatch wrapped in the decorators |
| Resources.ToManyRelationResource.QueryRelatedObj | src/flask_restalchemy/resources/resources.py:223-239 | the child is found exactly when the parent exists and has that child in its collection |
| Resources.ToManyRelationResource.Get | src/flask_restalchemy/resources/resources.py:146-172 | with a truthy id: 404 exactly when the child is not in the parent's collection or is falsy, else its dump with 200; otherwise 404 for an unknown parent, else every child dumped in order, or the query over the children |
| Resources.ToManyRelationResource.Post | src/flask_restalchemy/resources/resources.py:174-192 | an unknown or falsy parent is a 404 that changes nothing; a non-null request id attaches that row; otherwise a new child is inserted under a fresh key, which is its `id`, appended to the collection and saved with the POST hooks, answered with its dump and 201 |
| Resources.ToManyRelationResource.AppendExistent | src/flask_restalchemy/resources/resources.py:194-200 | an id naming no row is a 404 that changes nothing; otherwise the row is attached to the collection (staying where it is if already there) with one commit, no hooks and no new row, answered with 200 |
| Resources.ToManyRelationResource.Put | src/flask_restalchemy/resources/resources.py:202-210 | a child not in the collection, or falsy, is a 404 that changes nothing; otherwise the merged document is loaded into it and saved with the hooks of its tag (PUT when the loaded child is truthy) around one commit |
| Resources.ToManyRelationResource.Delete | src/flask_restalchemy/resources/resources.py:212-221 | a child not in the collection, or falsy, is a 404 that changes nothing; otherwise the row goes in one commit, answered with 204 |
| Resources.CollectionPropertyResource.constructor | src/flask_restalchemy/resources/resources.py:244-249 | the resource keeps its session, serializer, property and its kind, with dispatch wrapped in the decorators |
| Resources.CollectionPropertyResource.Get | src/flask_restalchemy/resources/resources.py:251-266 | 404 for an unknown parent; otherwise the property's items dumped in order, or the query over them |
| Resources.CollectionPropertyResource.Post | src/flask_restalchemy/resources/resources.py:268-269 | POST is always refused with 405 |
| Resources.NotFoundResponse | src/flask_restalchemy/resources/resources.py:304 | the not-found result is answered with the message and 404, a deletion with an empty body and 204 |
| Resources.UnassociatedChildNotFound | src/flask_restalchemy/resources/resources.py:223-239 | a non-zero id outside the parent's collection is not found, and `get` answers 404 for it |
| Resources.ZeroIdLists | src/flask_restalchemy/resources/resources.py:147 | id 0 is falsy, so it lists the collection like no id |
| Resources.PropertyGetIgnoresId | src/flask_restalchemy/resources/resources.py:251-266 | the property `get` gives the same result whatever id the route carries |
| Resources.DeleteTwice | src/flask_restalchemy/resources/resources.py:104-113 | deleting the same row twice gives 204 and then a 404, with one commit in all |
| Resources.CreateThenGet | src/flask_restalchemy/resources/resources.py:174-192 | a child created through the collection answers 201 and is then fetched through it by its new key with 200 and the same document the create returned |
| Resources.AttachTwice | src/flask_restalchemy/resources/resources.py:194-200 | attaching the same existing child twice answers 200 both times and leaves it in the collection exactly once, after two commits |

## Left out

- Character classes: `\d` is taken as ASCII `0`-`9`; Python's `re` also accepts other Unicode decimal digits in a `str` pattern.
- The argument validation of Python's `datetime` and `timezone` constructors (day within the month, offset strictly inside one day) is the parameter `valid`, not written out.
- The text of the `ValueError` message is kept only as the unmatched input in `NoMatch`.
- Offsets are whole minutes: `timedelta` seconds and microseconds within an offset, and `isoformat`'s seconds in an offset, are not modelled, because the zone pattern cannot carry them.
- Flask plumbing is not modelled: `request`, `jsonify`, `MethodView.dispatch_request` and `load_request_data`. Request bodies are given as documents.
- `query_from_request` (filtering, ordering and pagination) is the parameter `query`.
- SQLAlchemy is reduced to the `Store`: the `dynamic` flag stands for "has `paginate`", and the `InstrumentedList` test is not modelled.
- The pagination `warnings.warn` calls produce no value and are not modelled.
- `was_deleted` is computed and never used, so it is not modelled.
- `strict = True` and the `isinstance` assertion on the serializer are not modelled.
- `CollectionPropertyResource` inherits `put` and `delete` from `ToManyRelationResource`. Their behaviour is not restated for it.
- Exceptions raised by the serializer's `load` (validation errors) are not modelled: `load` always yields an object.
- The bodies of the serializer's commit hooks are not modelled; only the fact that each ran is logged.
- The session has no pending or flushed state, and no rollback. Each mutation is applied to the table at once, and commits are counted.
- `save_from_request` returns `dump(...).data`. The model returns the dumped document itself.
- Resources.KeyOf: only integer ids name rows. Other non-null values in the request give 404, where SQLAlchemy would try to coerce them.
- The resource's table and the parents' table are single tables shared by all resources over one `Store`.
- Session.Store.Append: a child may belong to the collections of several parents, as in a many-to-many relationship. For a one-to-many relationship, attaching a child to a second parent moves it out of the first parent's collection; the model keeps it in both.
- New keys are handed out in sequence from `nextId`, starting at 1. The database's own key generation is not modelled.
- Session.Store.Add: an `id` that the loaded object already carries is replaced by the fresh key. In the source the database would insert the row under the supplied key.
- Resources.ModelResource.Put: an `id` in the request is written as an attribute only, and the row stays under its key. In the source the commit would change the row's primary key. The same holds for `ToManyRelationResource.Put`.
- `request_decorators=None` behaves as an empty list.
- Decorators are identified by name only. What a decorator does to a request is not modelled.

## Findings

| source | as written | input that shows it | evidently intended | confidence | as-written member | corrected member |
|---|---|---|---|---|---|---|
| flask_restalchemy/serialization/serializer.py:49-52 | the minutes are negated only when the sign is `-` and the hours are 0, so `-05:30` becomes -5 hours + 30 minutes = -270 minutes | `load(dump(d))` for a `d` at UTC-05:30: `dump` writes `-05:30` | the sign applies to the whole offset: `-05:30` is -330 minutes, and `load(dump(d)) == d` for every aware `d` | not executed | DateTimeProperties.NegativeOffsetCounterexample | DateTimeSerializer.ParseTzinfoCorrected |

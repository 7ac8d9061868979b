/** The payload map of the trie is a plain JavaScript object, and `insert` tests
    for a key with the `in` operator, which also sees the properties every object
    inherits from `Object.prototype`. Two of those have all-lower-case names, so a
    lower-cased word can collide with them: for such a word `in` is true although
    no payload list exists, and the `push` on the inherited value throws a
    `TypeError`. This module models that behaviour as written; the rest of the
    model uses the evidently intended map behaviour, `Tries.AddPayload`. */
module ObjectKeys {
  import opened Strings
  import opened Tries

  /** The lower-case property names a plain object inherits from `Object.prototype`:
      `constructor` (a function) and `__proto__` (the prototype object itself). */
  const Inherited: set<string> := {"constructor", "__proto__"}

  /** The end of the payload bookkeeping: the updated own properties, or the
      `TypeError` thrown by calling `push` on a value that is not an array. */
  datatype Outcome<P> = Done(own: map<string, seq<P>>) | TypeError

  /** The bookkeeping of `insert` as written: `w in resultMap` holds for the own
      keys and for the inherited names; an own key gets `x` appended, an inherited
      name throws, and any other word gets a fresh list. */
  function AddPayloadAsWritten<P>(own: map<string, seq<P>>, w: string, x: P): (r: Outcome<P>)
    ensures r.TypeError? <==> w !in own && w in Inherited
    ensures r.Done? ==> r.own.Keys == own.Keys + {w} && r.own[w] == (if w in own then own[w] else []) + [x]
  {
    if w in own then Done(own[w := own[w] + [x]])
    else if w in Inherited then TypeError
    else Done(own[w := [x]])
  }

  /** The discrepancy: on a fresh trie, inserting an item that lower-cases to
      `constructor` throws instead of recording the item, whereas the intended
      bookkeeping records it under that word. */
  lemma ConstructorInsertThrows()
    ensures LowerString("Constructor") == "constructor"
    ensures AddPayloadAsWritten(map[], LowerString("Constructor"), "Constructor") == TypeError
    ensures AddPayload(map[], LowerString("Constructor"), "Constructor") == map["constructor" := ["Constructor"]]
  {
    assert LowerString("Constructor") == "constructor";
  }

  /** For every word that is not an inherited name (or is already an own key),
      the code as written and the intended bookkeeping agree. */
  lemma AsWrittenAgreesOtherwise<P>(own: map<string, seq<P>>, w: string, x: P)
    requires w in own || w !in Inherited
    ensures AddPayloadAsWritten(own, w, x) == Done(AddPayload(own, w, x))
  {
  }

  /** As written, the payload map never gets an inherited name as an own key, so
      once a colliding word reaches `insert` it throws every time. */
  lemma InheritedNeverStored<P>(own: map<string, seq<P>>, w: string, x: P)
    requires forall k :: k in own ==> k !in Inherited
    ensures AddPayloadAsWritten(own, w, x).Done? ==>
      forall k :: k in AddPayloadAsWritten(own, w, x).own ==> k !in Inherited
  {
  }
}

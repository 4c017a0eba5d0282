/** JSON values as a draft-04 JSON Schema validator sees a loaded document. */
module Json {

  /**
   * A JSON value. Numbers are their mathematical value and object members are
   * unordered, with one value per property name.
   */
  datatype Json =
    | JNull
    | JBool(b: bool)
    | JNumber(n: real)
    | JString(s: string)
    | JArray(items: seq<Json>)
    | JObject(members: map<string, Json>)

  /** The primitive types of section 3.5 of the draft-04 core document ("integer" aside). */
  datatype JsonType = NullType | BooleanType | NumberType | StringType | ArrayType | ObjectType

  function TypeOf(j: Json): JsonType {
    match j
    case JNull => NullType
    case JBool(_) => BooleanType
    case JNumber(_) => NumberType
    case JString(_) => StringType
    case JArray(_) => ArrayType
    case JObject(_) => ObjectType
  }

  /**
   * JSON value equality, clause by clause as section 3.6 of the draft-04 core
   * document defines it.
   */
  predicate Equal(a: Json, b: Json)
    decreases a
  {
    match a
    case JNull => b.JNull?
    case JBool(x) => b.JBool? && b.b == x
    case JNumber(x) => b.JNumber? && b.n == x
    case JString(x) => b.JString? && b.s == x
    case JArray(xs) =>
      b.JArray? && |xs| == |b.items| &&
      forall i :: 0 <= i < |xs| ==> Equal(xs[i], b.items[i])
    case JObject(m) =>
      b.JObject? && m.Keys == b.members.Keys &&
      forall k :: k in m ==> Equal(m[k], b.members[k])
  }

  /** Section 3.6 equality is exactly equality of the modelled values. */
  lemma {:induction false} EqualIsIdentity(a: Json, b: Json)
    ensures Equal(a, b) <==> a == b
    decreases a
  {
    match a
    case JArray(xs) =>
      if b.JArray? && |xs| == |b.items| {
        forall i | 0 <= i < |xs|
          ensures Equal(xs[i], b.items[i]) <==> xs[i] == b.items[i]
        {
          EqualIsIdentity(xs[i], b.items[i]);
        }
        if Equal(a, b) {
          assert xs == b.items;
        }
      }
    case JObject(m) =>
      if b.JObject? && m.Keys == b.members.Keys {
        forall k | k in m
          ensures Equal(m[k], b.members[k]) <==> m[k] == b.members[k]
        {
          EqualIsIdentity(m[k], b.members[k]);
        }
        if Equal(a, b) {
          assert m == b.members;
        }
      }
    case _ =>
  }
}

/**
 * Draft-04 JSON Schema validation, restricted to the keywords the manifest
 * schema uses: `type` (section 5.5.2), `minItems` (5.3.3), `uniqueItems`
 * (5.3.4), `items` in its single-schema form (5.3.1), `required` (5.4.3) and
 * `properties` (5.4.4). Annotation keywords (`$schema`, `description`) have no
 * effect on validation and are not represented.
 */
module Schema {
  import opened Wrappers
  import opened Json

  /** A schema; an absent keyword is `None`, `false`, `[]` or an empty map. */
  datatype Schema = Schema(
    typ: Option<JsonType>,
    minItems: Option<nat>,
    uniqueItems: bool,
    items: Option<Schema>,
    required: seq<string>,
    properties: map<string, Schema>)

  /** One step from a value to a part of it: an array index or a property name. */
  datatype PathElem = Index(i: nat) | Key(k: string)

  /** Where a violation was found; the empty path is the document root. */
  type Path = seq<PathElem>

  /** One failed keyword, at the place in the document where it failed. */
  datatype Violation =
    | InvalidType(at: Path, expected: JsonType, given: JsonType)
    | ArrayMinItems(at: Path, min: nat)
    | ArrayNotUnique(at: Path)
    | Required(at: Path, property: string)

  /** Section 5.3.4: no two elements are equal in the sense of core section 3.6. */
  predicate Unique(items: seq<Json>) {
    forall i, j :: 0 <= i < j < |items| ==> !Equal(items[i], items[j])
  }

  /**
   * Every violation of schema `s` by the value `doc` found at `at`. A value of
   * the wrong type is reported once and its other keywords are not checked;
   * otherwise the array keywords apply to arrays and the object keywords to
   * objects, and violations of nested values are collected as well. Every
   * violation is reported at the validated value's path or below it.
   */
  function Violations(s: Schema, doc: Json, at: Path): (r: set<Violation>)
    ensures forall v :: v in r ==> at <= v.at
    decreases s
  {
    if s.typ.Some? && TypeOf(doc) != s.typ.value then
      {InvalidType(at, s.typ.value, TypeOf(doc))}
    else
      match doc
      case JArray(xs) =>
        (if s.minItems.Some? && |xs| < s.minItems.value then {ArrayMinItems(at, s.minItems.value)} else {})
        + (if s.uniqueItems && !Unique(xs) then {ArrayNotUnique(at)} else {})
        + (if s.items.None? then {}
           else set i, v | 0 <= i < |xs| && v in Violations(s.items.value, xs[i], at + [Index(i)]) :: v)
      case JObject(m) =>
        (set p | p in s.required && p !in m :: Required(at, p))
        + (set k, v | k in s.properties && k in m && v in Violations(s.properties[k], m[k], at + [Key(k)]) :: v)
      case _ => {}
  }
}

/**
 * The two fixed catalog schemas of whiriho/schemas.py, written as predicates over
 * JSON values. Each schema is the conjunction of the keywords it uses, each
 * keyword read as JSON Schema Validation draft 04 defines it; each predicate's
 * postcondition then states, in plain terms, which documents the schema accepts.
 */
module Schemas {
  import opened Json

  // Keywords of JSON Schema Validation draft 04 used by the two schemas.

  /** `"type": "object"` (section 5.5.2). */
  predicate TypeObject(j: JSON) {
    j.JObject?
  }

  /** `"type": "string"` (section 5.5.2). */
  predicate TypeString(j: JSON) {
    j.JString?
  }

  /** `"enum"` (section 5.5.1): the instance equals one of the listed values. */
  predicate Enum(j: JSON, values: seq<JSON>) {
    j in values
  }

  /** `"required"` (section 5.4.3): each listed member is present; an instance that is not an object passes. */
  predicate Required(j: JSON, names: seq<string>) {
    j.JObject? ==> forall name :: name in names ==> name in j.obj
  }

  /** One member of `"properties"` (section 5.4.4): if the instance has it, its value satisfies the subschema. */
  predicate Property(j: JSON, name: string, subschema: JSON -> bool) {
    j.JObject? && name in j.obj ==> subschema(j.obj[name])
  }

  /** `"additionalProperties": false` (section 5.4.4): no member outside the declared properties. */
  predicate NoAdditionalProperties(j: JSON, declared: set<string>) {
    j.JObject? ==> j.obj.Keys <= declared
  }

  /** `"additionalProperties"` given as a schema (section 5.4.4): every undeclared member satisfies it. */
  predicate AdditionalProperties(j: JSON, declared: set<string>, subschema: JSON -> bool) {
    j.JObject? ==> forall key :: key in j.obj && key !in declared ==> subschema(j.obj[key])
  }

  /** The values the `format` member of a catalog entry may take. */
  const Formats: seq<JSON> := [JString("yaml"), JString("json"), JString("ini")]

  /**
   * `__whiriho_catalog__`, the envelope every catalog document is checked against
   * before its version is read: it accepts exactly the objects whose `version` is a
   * string, whatever other members they have (`"additionalProperties": true`).
   */
  function CatalogEnvelope(doc: JSON): (ok: bool)
    ensures ok <==> doc.JObject? && "version" in doc.obj && doc.obj["version"].JString?
  {
    TypeObject(doc)
    && Property(doc, "version", TypeString)
    && Required(doc, ["version"])
  }

  /**
   * One catalog entry under `__whiriho_catalog_v1__`: an object with a string
   * `file`; `format`, when present, is one of yaml, json and ini; `schema`, `title`
   * and `description`, when present, are strings. Entries carry no
   * `additionalProperties`, so any other member is allowed.
   */
  function CatalogEntryV1(entry: JSON): (ok: bool)
    ensures ok <==>
      entry.JObject?
      && "file" in entry.obj && entry.obj["file"].JString?
      && ("format" in entry.obj ==>
            entry.obj["format"].JString? && entry.obj["format"].str in {"yaml", "json", "ini"})
      && ("schema" in entry.obj ==> entry.obj["schema"].JString?)
      && ("title" in entry.obj ==> entry.obj["title"].JString?)
      && ("description" in entry.obj ==> entry.obj["description"].JString?)
  {
    TypeObject(entry)
    && Property(entry, "file", TypeString)
    && Property(entry, "format", j => Enum(j, Formats))
    && Property(entry, "schema", TypeString)
    && Property(entry, "title", TypeString)
    && Property(entry, "description", TypeString)
    && Required(entry, ["file"])
  }

  /** The `catalog` member under `__whiriho_catalog_v1__`: an object whose every value is a valid entry. */
  function CatalogSectionV1(section: JSON): (ok: bool)
    ensures ok <==> section.JObject? && forall path :: path in section.obj ==> CatalogEntryV1(section.obj[path])
  {
    TypeObject(section)
    && AdditionalProperties(section, {}, CatalogEntryV1)
  }

  /**
   * `__whiriho_catalog_v1__`, the full version-1 schema: the document has exactly
   * the two members `version` (a string) and `catalog` (a mapping from logical
   * path to valid entry).
   */
  function CatalogV1(doc: JSON): (ok: bool)
    ensures ok <==>
      doc.JObject? && doc.obj.Keys == {"version", "catalog"}
      && doc.obj["version"].JString?
      && CatalogSectionV1(doc.obj["catalog"])
  {
    TypeObject(doc)
    && Property(doc, "version", TypeString)
    && Property(doc, "catalog", CatalogSectionV1)
    && Required(doc, ["version", "catalog"])
    && NoAdditionalProperties(doc, {"version", "catalog"})
  }

  /** Every document the v1 schema accepts also passes the envelope. */
  lemma V1WithinEnvelope(doc: JSON)
    requires CatalogV1(doc)
    ensures CatalogEnvelope(doc)
  {
  }

  /** A top-level member other than `version` and `catalog` makes a document fail the v1 schema. */
  lemma V1RejectsUndeclaredMember(doc: JSON, key: string)
    requires doc.JObject? && key in doc.obj && key != "version" && key != "catalog"
    ensures !CatalogV1(doc)
  {
  }

  /** Adding a member outside the declared entry properties keeps a valid entry valid. */
  lemma EntryAllowsOtherMembers(entry: JSON, key: string, value: JSON)
    requires CatalogEntryV1(entry)
    requires key !in {"file", "format", "schema", "title", "description"}
    ensures CatalogEntryV1(JObject(entry.obj[key := value]))
  {
  }
}

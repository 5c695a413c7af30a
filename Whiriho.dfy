/**
 * The configuration-catalog object of whiriho/whiriho.py. A `Whiriho` object is
 * bound to a catalog file and holds the catalog's parsed version and its mapping
 * from logical path to entry; both are unset until a load stores them.
 *
 * Reading and parsing the file is done by a foreign loader; its result is the
 * `ReadResult` handed to `Load`. `LoadTransition` specifies a load as a function
 * of that result and of the two fields before it, and `Whiriho.Load` is proved
 * to perform exactly that transition step by step.
 */
module Whiriho {
  import opened Wrappers
  import opened Json
  import opened Errors
  import SemVer
  import Schemas

  /** What the foreign loader produced for the catalog file: an I/O failure, or the parsed document. */
  datatype ReadResult = IOFail | Parsed(doc: JSON)

  /** The two fields a load may change. */
  datatype State = State(version: Option<SemVer.Version>, catalog: Option<map<string, JSON>>)

  /** The `version` string of a document that passed the envelope. */
  function VersionText(doc: JSON): string
    requires Schemas.CatalogEnvelope(doc)
  {
    doc.obj["version"].str
  }

  /**
   * One load: the outcome it raises (or `Pass`) and the fields after it. The
   * envelope is checked first, then the version is parsed and stored, then the
   * document is checked against the schema of that major version.
   */
  function LoadTransition(input: ReadResult, before: State): (r: (Outcome<WhirihoError>, State))
    // Every failure is one of the three catalog error kinds.
    ensures r.0.Fail? ==> r.0.error in {CatalogNotFound, CatalogFormat, CatalogVersion}
    // An unreadable file is reported as not found, and nothing changes.
    ensures r.0 == Fail(CatalogNotFound) <==> input.IOFail?
    ensures input.IOFail? ==> r.1 == before
    // A document outside the envelope is a format error, never a version error, and nothing changes.
    ensures input.Parsed? && !Schemas.CatalogEnvelope(input.doc) ==> r == (Fail(CatalogFormat), before)
    // A version error needs a document that passed the envelope, whose version string
    // either does not parse (nothing changes) or has a major version other than 1
    // (the version is stored, the catalog is not).
    ensures r.0 == Fail(CatalogVersion) <==>
      input.Parsed? && Schemas.CatalogEnvelope(input.doc)
      && var v := SemVer.Parse(VersionText(input.doc));
         v.None? || v.value.major != 1
    ensures input.Parsed? && Schemas.CatalogEnvelope(input.doc)
            && SemVer.Parse(VersionText(input.doc)).None? ==>
      r == (Fail(CatalogVersion), before)
    ensures input.Parsed? && Schemas.CatalogEnvelope(input.doc) ==>
      var v := SemVer.Parse(VersionText(input.doc));
      v.Some? && v.value.major != 1 ==> r == (Fail(CatalogVersion), State(v, before.catalog))
    // A format error after the version was read means a major version 1 document
    // that fails the v1 schema; the version is stored, the catalog is not.
    ensures r.0 == Fail(CatalogFormat) && input.Parsed? && Schemas.CatalogEnvelope(input.doc) ==>
      var v := SemVer.Parse(VersionText(input.doc));
      v.Some? && v.value.major == 1 && !Schemas.CatalogV1(input.doc)
      && r.1 == State(v, before.catalog)
    // A load succeeds exactly on a v1 document whose version has major version 1,
    // and then replaces both fields, whatever they held before.
    ensures r.0.Pass? <==>
      input.Parsed? && Schemas.CatalogV1(input.doc)
      && var v := SemVer.Parse(VersionText(input.doc));
         v.Some? && v.value.major == 1
    ensures r.0.Pass? ==>
      r.1.version.Some? && r.1.version.value.major == 1
      && r.1.version == SemVer.Parse(VersionText(input.doc))
      && r.1.catalog == Some(input.doc.obj["catalog"].obj)
    // Only a successful load changes the catalog; the version changes only to the parsed one.
    ensures !r.0.Pass? ==> r.1.catalog == before.catalog
    ensures r.1.version == before.version || r.1.version == SemVer.Parse(VersionText(input.doc))
  {
    match input
    case IOFail => (Fail(CatalogNotFound), before)
    case Parsed(doc) =>
      if !Schemas.CatalogEnvelope(doc) then
        (Fail(CatalogFormat), before)
      else
        match Whiriho.ParseVersion(VersionText(doc))
        case Failure(e) => (Fail(e), before)
        case Success(v) =>
          var versioned := before.(version := Some(v));
          if v.major == 1 then
            if Schemas.CatalogV1(doc) then
              (Pass, versioned.(catalog := Some(doc.obj["catalog"].obj)))
            else
              (Fail(CatalogFormat), versioned)
          else
            (Fail(CatalogVersion), versioned)
  }

  class Whiriho {
    /** Location of the catalog file. */
    var path: string
    /** Format the loader must use, instead of guessing it from the file extension. */
    var forcedFormat: Option<string>
    /** Version of the last catalog whose version string parsed. */
    var version: Option<SemVer.Version>
    /** Mapping from logical path to entry, stored by the last successful load. */
    var catalog: Option<map<string, JSON>>
    /** The document of the last successful load, if any. */
    ghost var loaded: Option<JSON>

    /** The stored catalog is the `catalog` member of the last document that loaded, which passed the v1 schema. */
    ghost predicate Valid()
      reads this
    {
      (loaded.Some? ==> Schemas.CatalogV1(loaded.value) && catalog == Some(loaded.value.obj["catalog"].obj))
      && (loaded.None? ==> catalog == None)
    }

    /** The fields a load may change, as a value. */
    function Fields(): State
      reads this
    {
      State(version, catalog)
    }

    /** A new catalog object remembers where its file is and holds neither a version nor a catalog. */
    constructor (path: string, format: Option<string>)
      ensures this.path == path && forcedFormat == format
      ensures version == None && catalog == None
      ensures Valid() && loaded == None
    {
      this.path := path;
      forcedFormat := format;
      version := None;
      catalog := None;
      loaded := None;
    }

    /**
     * Parses a version string. It either yields a version or fails with the
     * version error kind; no other failure escapes. A version it yields is the
     * one whose canonical text is the input.
     */
    static function ParseVersion(text: string): (r: Result<SemVer.Version, WhirihoError>)
      ensures r.Failure? ==> r.error == CatalogVersion
      ensures r.Success? <==> SemVer.Parse(text).Some?
      ensures r.Success? ==> SemVer.WellFormed(r.value) && SemVer.Format(r.value) == text
    {
      match SemVer.Parse(text)
      case None => Failure(CatalogVersion)
      case Some(v) =>
        SemVer.ParseIsFormatInverse(text, v);
        Success(v)
    }

    /**
     * Loads the catalog from what the loader read. The fields change as
     * `LoadTransition` says; on success the logical paths are those of the
     * document's `catalog` member.
     */
    method Load(input: ReadResult) returns (outcome: Outcome<WhirihoError>)
      requires Valid()
      modifies this`version, this`catalog, this`loaded
      ensures Valid()
      ensures (outcome, Fields()) == LoadTransition(input, old(Fields()))
      ensures loaded == if outcome.Pass? then Some(input.doc) else old(loaded)
      ensures outcome.Pass? ==>
        input.Parsed? && Schemas.CatalogV1(input.doc)
        && GetPaths() == input.doc.obj["catalog"].obj.Keys
    {
      match input {
        case IOFail =>
          return Fail(CatalogNotFound);
        case Parsed(data) =>
          if !Schemas.CatalogEnvelope(data) {
            return Fail(CatalogFormat);
          }
          var parsed := ParseVersion(data.obj["version"].str);
          if parsed.Failure? {
            return Fail(parsed.error);
          }
          version := Some(parsed.value);
          if version.value.major == 1 {
            if !Schemas.CatalogV1(data) {
              return Fail(CatalogFormat);
            }
            catalog := Some(data.obj["catalog"].obj);
            loaded := Some(data);
            return Pass;
          } else {
            return Fail(CatalogVersion);
          }
      }
    }

    /** The logical paths of the loaded catalog: the keys of the `catalog` member of the last document that loaded. */
    function GetPaths(): (paths: set<string>)
      reads this
      requires Valid() && loaded.Some?
      ensures paths == loaded.value.obj["catalog"].obj.Keys
    {
      catalog.value.Keys
    }
  }

  /**
   * A document with a well-formed major-version-1 version string and valid
   * entries loads, whatever the object held before, and then holds exactly
   * that version and those entries.
   */
  lemma LoadAcceptsV1Document(v: SemVer.Version, entries: map<string, JSON>, before: State)
    requires v.major == 1 && SemVer.WellFormed(v)
    requires forall path :: path in entries ==> Schemas.CatalogEntryV1(entries[path])
    ensures
      var doc := JObject(map["version" := JString(SemVer.Format(v)), "catalog" := JObject(entries)]);
      LoadTransition(Parsed(doc), before) == (Pass, State(Some(v), Some(entries)))
  {
    SemVer.ParseFormat(v);
  }

  /**
   * A document whose version string is a well-formed version with a major
   * version other than 1 fails with the version error, whatever else it
   * contains; the version is stored and the catalog is kept.
   */
  lemma LoadRejectsOtherMajor(v: SemVer.Version, doc: JSON, before: State)
    requires v.major != 1 && SemVer.WellFormed(v)
    requires doc.JObject? && "version" in doc.obj && doc.obj["version"] == JString(SemVer.Format(v))
    ensures LoadTransition(Parsed(doc), before) == (Fail(CatalogVersion), before.(version := Some(v)))
  {
    SemVer.ParseFormat(v);
  }
}

# Whiriho catalog loader, modelled in Dafny

Whiriho manages a catalog of configuration files. The catalog is one document with
a semantic `version` string and a `catalog` mapping. The mapping goes from a
logical path to an entry that says where a configuration file lives (`file`),
its format (`yaml`, `json` or `ini`), an optional validation schema, and a title
and description.

This project models the part of Whiriho that loads such a document:

- `Whiriho.Whiriho` is the catalog object. It holds the file location, an optional
  forced format, the parsed `version` and the loaded `catalog` mapping.
- `Whiriho.Whiriho.Load` reads the document and checks it against the generic
  envelope schema. It then parses and stores the version. For major version 1 it
  checks the full v1 schema and stores the mapping. Every failure is one of three
  error kinds: not found, format, or version.
- `Whiriho.LoadTransition` states what a load does as a pure function of what
  the file read produced and of the fields before the load. `Load` is proved to
  perform exactly that transition. The properties of a load are the
  postconditions of `LoadTransition`.
- `Schemas` writes the two fixed schemas of `whiriho/schemas.py` as predicates
  over a JSON value. They are built from the keywords `type`, `properties`,
  `required`, `additionalProperties` and `enum`, read as JSON Schema Validation
  draft 04 defines them (sections 5.4.3, 5.4.4, 5.5.1 and 5.5.2). Each
  predicate's postcondition says in plain terms which documents it accepts.
- `SemVer` parses version strings as Semantic Versioning 2.0.0 defines them
  (sections 2, 9 and 10). It stands in for the version library the loader calls.
  `Parse` and `Format` are proved inverse on well-formed versions.
- `Errors.WhirihoError` is the closed set of error kinds of `whiriho/errors.py`.

Foreign code is abstracted as follows:

- Reading and parsing the catalog file is a library call. It becomes the
  `ReadResult` parameter of `Load`: either `IOFail` or `Parsed(doc)`.
- Numbers in a document are integers only, so no floating point is involved.

Three facts of the code shape the model:

- A catalog entry requires the member `file` (`whiriho/schemas.py:26`,
  `whiriho/schemas.py:42-44`).
- Entries may carry members beyond the five declared ones, because the entry
  schema has no `additionalProperties`. Only the top level rejects undeclared
  members (`whiriho/schemas.py:52`).
- A failed load is not all-or-nothing. The parsed version is stored before the
  major version and the v1 schema are checked (`whiriho/whiriho.py:61`,
  `whiriho/whiriho.py:64-75`). A load that fails after the version parsed keeps
  the new version and the old catalog.

## Model

| member | source | states |
|---|---|---|
| `Whiriho.Whiriho.constructor` | whiriho/whiriho.py:23-34 | a new catalog object keeps its path and forced format, both `version` and `catalog` are unset, and no document has loaded yet |
| `Whiriho.Whiriho.ParseVersion` | whiriho/whiriho.py:36-47 | parsing either yields a well-formed version whose canonical text is the input, or fails with the version error kind; it succeeds exactly when the string is a valid semantic version; under Python 2 no other failure escapes |
| `Whiriho.LoadTransition` | whiriho/whiriho.py:53-79 | each failure is one of not-found, format or version. An unreadable file is not-found and changes nothing. A document outside the envelope is a format error, never a version error, and changes nothing. A version error happens exactly when the version string does not parse (then nothing changes) or its major version is not 1 (then that version is stored and the catalog is kept). A major-1 document that fails the v1 schema is a format error that stores the version and keeps the catalog. A load succeeds exactly on a v1-valid document with major version 1; it then stores that version and the document's `catalog` mapping, replacing the earlier state |
| `Whiriho.Whiriho.Load` | whiriho/whiriho.py:49-79 | the outcome and the new `version` and `catalog` are those of `LoadTransition` on the old fields; of the object's real fields only `version` and `catalog` may change; the object invariant is kept, and the remembered loaded document becomes the input exactly when the load succeeds; after a successful load, `GetPaths` is exactly the key set of the document's `catalog` member |
| `Whiriho.Whiriho.GetPaths` | whiriho/whiriho.py:81-85 | the paths are exactly the keys of the `catalog` member of the last document that loaded successfully |
| `Whiriho.LoadAcceptsV1Document` | whiriho/whiriho.py:61-66 | a document made of a well-formed major-1 version string and valid entries loads from any prior state, and the object then holds exactly that version and those entries |
| `Whiriho.LoadRejectsOtherMajor` | whiriho/whiriho.py:61-73 | a document whose version string is a well-formed version with major version other than 1 fails with the version error whatever else it contains; the version is stored and the catalog is kept |
| `Schemas.CatalogEnvelope` | whiriho/schemas.py:3-14 | the envelope accepts exactly the objects that have a string `version`, whatever their other members |
| `Schemas.CatalogEntryV1` | whiriho/schemas.py:23-44 | an entry is an object with a string `file`; `format`, if present, is one of `yaml`, `json`, `ini`; `schema`, `title` and `description`, if present, are strings |
| `Schemas.CatalogSectionV1` | whiriho/schemas.py:21-46 | the `catalog` member is an object whose every value is a valid entry |
| `Schemas.CatalogV1` | whiriho/schemas.py:15-53 | the v1 schema accepts exactly the objects whose members are exactly `version` and `catalog`, with `version` a string and `catalog` a valid catalog section |
| `Schemas.V1WithinEnvelope` | whiriho/schemas.py:3-53 | every document the v1 schema accepts also passes the envelope |
| `Schemas.V1RejectsUndeclaredMember` | whiriho/schemas.py:52 | a top-level member other than `version` and `catalog` makes a document fail the v1 schema |
| `Schemas.EntryAllowsOtherMembers` | whiriho/schemas.py:24-44 | adding a member outside the five declared entry properties keeps a valid entry valid |
| `SemVer.Parse` | whiriho/whiriho.py:45 | a parsed version always has a well-formed pre-release and build part |
| `SemVer.Numeral` | whiriho/whiriho.py:45 | the decimal text of a number is a numeral without leading zeroes that denotes that number |
| `SemVer.NumeralOfValue` | whiriho/whiriho.py:45 | a numeral without leading zeroes is the decimal text of the number it denotes |
| `SemVer.ParseFormat` | whiriho/whiriho.py:45 | every well-formed version is parsed back from its canonical text |
| `SemVer.FormatParse` | whiriho/whiriho.py:45 | every string that parses is the canonical text of the version it parses to |
| `SemVer.ParseIsFormatInverse` | whiriho/whiriho.py:45 | a string parses to a version exactly when it is the canonical text of that well-formed version |

## Left out

- Reading the catalog file and inferring its format from the file extension
  (`whiriho/whiriho.py:55`) are I/O in a foreign library. The result is a
  parameter of `Load`, and the file location and forced format are only stored.
- Failures of the file loader other than an I/O error are not modelled. Malformed
  file content and an unknown format are examples. In the source such an
  exception escapes `load` without being turned into a catalog error.
- The branch that turns a schema error into an assertion error
  (`whiriho/whiriho.py:76-77`) cannot be reached with the two fixed schemas. It is
  not modelled.
- Error messages are not modelled, only the error kinds. This includes the text
  that names the tool's own version (`whiriho/whiriho.py:68-73`, `75`).
- Version parsing follows the text of Semantic Versioning 2.0.0. The version
  library's own code is not part of this model, so any place where the library
  departs from the standard is not captured. Only `major` is inspected by the
  loader.
- `Whiriho.Whiriho.GetPaths` returns a set. The source returns a list of the keys
  in the mapping's own order, and that order is not modelled. Calling it before a
  successful load fails in the source with an uncaught attribute error. The model
  states this as the precondition that a document has loaded.
- `Whiriho.Whiriho.ParseVersion` follows Python 2, where the library's
  `ValueError` has a `message` attribute (`whiriho/whiriho.py:47`). Under Python 3
  that attribute does not exist, so an unparsable version escapes `load` as an
  `AttributeError` instead of the version error. The Python 3 behaviour is not
  modelled.
- Keys of a document's mappings are strings only. A YAML catalog can have
  non-string keys, including non-string logical paths. The source validates them
  (`whiriho/schemas.py:23`) and `get_paths` returns them (`whiriho/whiriho.py:85`).
  Such keys are not modelled.
- The `__enter__`/`__exit__` context-manager methods (`whiriho/whiriho.py:87-98`)
  only call `load`. They are not modelled.
- Documents hold integers but no floating-point numbers, and none of the other
  value types a YAML loader can produce, such as dates.
- The command-line front end `whiriho/cli.py` is not part of this model. Its `get`
  command calls `get_config_meta`, which `whiriho/whiriho.py` does not define.
  `CatalogPath` is declared in `whiriho/errors.py` but never raised by the loader.
- Path-safety resolution, catalog initialisation, access to configuration data
  and URI-scheme handling do not appear in `whiriho/whiriho.py`. They are not
  modelled.

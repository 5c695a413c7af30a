/**
 * The error kinds of whiriho/errors.py. The abstract root `WhirihoException` is the
 * datatype itself; each concrete exception class is one constructor.
 */
module Errors {

  datatype WhirihoError =
    | CatalogNotFound   // the catalog file could not be read
    | CatalogFormat     // the catalog document fails a catalog schema
    | CatalogVersion    // the version string is malformed or its major version is unsupported
    | CatalogPath       // a logical path is not in the catalog
}

/**
 * A resource record as the sorter sees it. The program's records are schema-less
 * nested maps; only the declared type name (`kind`) takes part in ordering, and
 * `metadata.name` is kept to tell records of the same kind apart. A record whose
 * `kind` field is missing reads as the empty string.
 */
module Resources {
  datatype Resource = Resource(kind: string, name: string)
}

/** The records of the `regexparser` package. */
module Types {
  import opened Regexp

  /** Go's `int64`, the type of every level. */
  newtype Int64 = x: int | -0x8000_0000_0000_0000 <= x < 0x8000_0000_0000_0000

  /** One node of a configuration tree: the source of a pattern, its level and
      the patterns to apply to the text it matches. An absent `Submatch` is not
      modelled (the source dereferences it unconditionally); a leaf has `[]`. */
  datatype Config = Config(pattern: string, level: Int64, submatch: seq<Config>)

  /** One node of a compiled tree: the same shape with the pattern compiled. */
  datatype Parser = Parser(regex: Regex, level: Int64, submatch: seq<Parser>)

  /** One named capture group of one match. */
  datatype Tag = Tag(name: string, value: string)

  /** One output record (`Label`, `Bucket`, `Properties`). */
  datatype Node = Node(labelText: string, bucket: string, properties: seq<Tag>)

  /** The tags of one match. */
  type TagSet = seq<Tag>

  /** What `ParseText` returns: one entry per contributing node, each entry a
      list of tag-sets. */
  type Entry = seq<TagSet>
}

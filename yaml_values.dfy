/** The values `yaml.safe_load` produces, seen only as far as the analyzer looks at them. */
module YamlValues {

  /**
   * `type(v)` of a loaded value. YAML dates, binary and the like load to other
   * classes; `Other` carries the class name so that two such types compare as
   * Python compares them.
   */
  datatype TypeTag = NoneType | Bool | Int | Float | Str | List | Dict | Other(name: string)

  /**
   * The Python objects that meet in the membership test on the `defaults` list:
   * strings, type objects and lists of them. Datatype equality is Python's `==`
   * on these: a `str` never equals a `list`.
   */
  datatype PyValue = PyStr(s: string) | PyType(tag: TypeTag) | PyList(items: seq<PyValue>)
}

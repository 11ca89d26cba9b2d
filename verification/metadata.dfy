/** Class identity and the process-wide metadata side table (`MetadataInfo`):
    structured data attached to a class from outside the class object,
    under a feature namespace so that unrelated features cannot collide. */
module Metadata {
  import opened Wrappers

  /** The identity of a class constructor. The source compares constructors
      by reference, so two distinct classes are always two distinct values
      here; `name` is only a label that tells them apart, not a claim that
      classes with equal names are the same class. */
  datatype Class = Class(name: string)

  /** A side-table key: a feature namespace and the class it annotates. */
  datatype Key = Key(namespace: string, cls: Class)

  /** The side table itself. A missing key is "nothing stored". */
  type Table<V> = map<Key, V>

  function GetClassMetadata<V>(t: Table<V>, namespace: string, cls: Class): Option<V>
  {
    if Key(namespace, cls) in t then Some(t[Key(namespace, cls)]) else None
  }

  /** Writing overwrites the value stored under (namespace, class) and
      leaves every other entry of the table as it was. */
  function SetClassMetadata<V>(t: Table<V>, namespace: string, cls: Class, v: V): (t': Table<V>)
    ensures GetClassMetadata(t', namespace, cls) == Some(v)
    ensures forall ns, c :: (ns, c) != (namespace, cls) ==>
      GetClassMetadata(t', ns, c) == GetClassMetadata(t, ns, c)
  {
    t[Key(namespace, cls) := v]
  }
}

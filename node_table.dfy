/**
 * The `Dictionary<int, ListNode>` that the recursive serializer threads
 * through its recursion by reference: an object whose entries every level
 * of the recursion adds to.
 */
module NodeTables {
  import opened ListGraph

  class NodeTable<K(==)> {
    var entries: map<K, ListNode>

    /** `new Dictionary<int, ListNode>()`. */
    constructor ()
      ensures entries == map[]
    {
      entries := map[];
    }

    /**
     * `Dictionary.Add`: inserts a key that is not present yet; a key that is
     * already present makes the insertion fail (the source throws) and leaves
     * the entries as they were.
     */
    method Add(key: K, value: ListNode) returns (added: bool)
      modifies this
      ensures added <==> key !in old(entries)
      ensures entries == if added then old(entries)[key := value] else old(entries)
    {
      added := key !in entries;
      if added {
        entries := entries[key := value];
      }
    }
  }
}

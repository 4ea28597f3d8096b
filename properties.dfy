/** The part of java.util.Properties (a Hashtable of strings) the helpers use. */
module JavaUtil {
  import opened Outcomes

  class Properties {
    var entries: map<string, string>

    /** Hashtable.get: the value stored under `key`, or null. */
    function Get(key: string): Option<string>
      reads this
    {
      if key in entries then Some(entries[key]) else None
    }

    /** Hashtable.put with a non-null value (a null value is rejected by the callers' model). */
    method Put(key: string, value: string)
      modifies this
      ensures entries == old(entries)[key := value]
    {
      entries := entries[key := value];
    }
  }
}

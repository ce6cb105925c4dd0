/** The in-memory cache of the pipeline stages; its background loop may drop any entries. */
module Cache {
  import opened Wrappers

  class PersistedCache<T> {
    var entries: map<string, T>

    constructor ()
      ensures entries == map[]
    {
      entries := map[];
    }

    function Get(key: string): Option<T>
      reads this
    {
      if key in entries then Some(entries[key]) else None
    }

    method Set(key: string, value: T)
      modifies this
      ensures entries == old(entries)[key := value]
    {
      entries := entries[key := value];
    }

    method Delete(key: string)
      modifies this
      ensures entries == old(entries) - {key}
    {
      if key !in entries {
        assert entries - {key} == entries;
        return;
      }
      entries := entries - {key};
    }

    /** The trim step: deletes the excess over the maximum size, whichever keys come first. */
    method Trim(maxSize: nat)
      modifies this
      ensures entries.Keys <= old(entries).Keys
      ensures forall k <- entries :: entries[k] == old(entries)[k]
      ensures |entries| == if |old(entries)| > maxSize then maxSize else |old(entries)|
    {
      while |entries| > maxSize
        invariant entries.Keys <= old(entries).Keys
        invariant forall k <- entries :: entries[k] == old(entries)[k]
        invariant |entries| >= maxSize || entries == old(entries)
        decreases |entries|
      {
        var key :| key in entries;
        assert entries.Keys - {key} == (entries - {key}).Keys;
        entries := entries - {key};
      }
    }
  }
}

/**
 * A Python `dict[str, str]` as a mutable object: the source hands such
 * dictionaries around by reference and changes them in place
 * (`kwargs.pop`, `payload.update`, `payload["code"] = ...`).
 */
module PyDict {
  import opened Wrappers

  /** The exception `d[key]` raises for a missing key. */
  datatype KeyError = KeyError(key: string)

  class Dict {
    var entries: map<string, string>

    constructor (init: map<string, string>)
      ensures entries == init
    {
      entries := init;
    }

    /** `d.pop(key, default)`: removes the key and returns its value, or
        returns the default when the key is absent. */
    method Pop(key: string, default: string) returns (v: string)
      modifies this
      ensures v == if key in old(entries) then old(entries)[key] else default
      ensures entries == old(entries) - {key}
    {
      v := if key in entries then entries[key] else default;
      entries := entries - {key};
    }

    /** `d[key]`: the value, or a `KeyError`. */
    method Get(key: string) returns (r: Result<string, KeyError>)
      ensures r.Success? <==> key in entries
      ensures r.Success? ==> r.value == entries[key]
      ensures r.Failure? ==> r.error == KeyError(key)
    {
      if key in entries {
        r := Success(entries[key]);
      } else {
        r := Failure(KeyError(key));
      }
    }

    /** `d[key] = value`. */
    method Set(key: string, value: string)
      modifies this
      ensures entries == old(entries)[key := value]
    {
      entries := entries[key := value];
    }

    /** `d.update(other)`: the other dictionary's entries win on shared keys. */
    method Update(other: Dict)
      modifies this
      ensures entries == old(entries) + old(other.entries)
    {
      entries := entries + other.entries;
    }
  }
}

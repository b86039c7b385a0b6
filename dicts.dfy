/** Python dictionaries from tag name to value, as the decoder and the
    gateway build them: insertion-ordered, and assigning to an existing key
    keeps the key's position and replaces its value. */
module Dicts {
  import opened Wrappers
  import opened PyNumbers

  datatype Entry = Entry(key: string, value: PyFloat)

  type Dict = seq<Entry>

  /** `d.get(k)`. */
  function Get(d: Dict, k: string): Option<PyFloat>
  {
    if d == [] then None
    else if d[0].key == k then Some(d[0].value)
    else Get(d[1..], k)
  }

  /** The keys of d in iteration order. */
  function Keys(d: Dict): seq<string>
  {
    if d == [] then [] else [d[0].key] + Keys(d[1..])
  }

  /** `d[k] = v`. */
  function Put(d: Dict, k: string, v: PyFloat): (r: Dict)
    ensures Get(r, k) == Some(v)
    ensures forall k' :: k' != k ==> Get(r, k') == Get(d, k')
    ensures Get(d, k).Some? ==> Keys(r) == Keys(d)
    ensures Get(d, k).None? ==> Keys(r) == Keys(d) + [k]
  {
    if d == [] then [Entry(k, v)]
    else if d[0].key == k then [Entry(k, v)] + d[1..]
    else
      var r := [d[0]] + Put(d[1..], k, v);
      assert r[1..] == Put(d[1..], k, v);
      r
  }

  /** Assigning every entry of us to d, in order. */
  function PutAll(d: Dict, us: seq<Entry>): Dict
  {
    if us == [] then d
    else Put(PutAll(d, us[..|us| - 1]), us[|us| - 1].key, us[|us| - 1].value)
  }

  /** The value of the last entry of us with key k. */
  function LastWrite(us: seq<Entry>, k: string): Option<PyFloat>
  {
    if us == [] then None
    else if us[|us| - 1].key == k then Some(us[|us| - 1].value)
    else LastWrite(us[..|us| - 1], k)
  }

  /** After a run of assignments, every key holds the value last assigned
      to it, and keys never assigned keep their value. */
  lemma {:induction false} LemmaPutAllLastWriteWins(d: Dict, us: seq<Entry>, k: string)
    ensures Get(PutAll(d, us), k) == if LastWrite(us, k).Some? then LastWrite(us, k) else Get(d, k)
  {
    if us != [] {
      LemmaPutAllLastWriteWins(d, us[..|us| - 1], k);
    }
  }

  lemma {:induction false} LemmaPutAllStep(d: Dict, us: seq<Entry>, e: Entry)
    ensures PutAll(d, us + [e]) == Put(PutAll(d, us), e.key, e.value)
  {
    assert (us + [e])[..|us|] == us;
  }

  lemma {:induction false} LemmaPutAllConcat(d: Dict, us: seq<Entry>, vs: seq<Entry>)
    ensures PutAll(d, us + vs) == PutAll(PutAll(d, us), vs)
    decreases |vs|
  {
    if vs == [] {
      assert us + vs == us;
    } else {
      var vs' := vs[..|vs| - 1];
      assert us + vs == (us + vs') + [vs[|vs| - 1]];
      LemmaPutAllStep(d, us + vs', vs[|vs| - 1]);
      LemmaPutAllConcat(d, us, vs');
    }
  }
}

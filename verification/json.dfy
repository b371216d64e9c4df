/** JSON values as Python's json module hands them to the server, and the
    dictionary operations the server applies to them. */
module JsonValues {
  import opened Wrappers

  /** A decoded JSON value. An object keeps its members in insertion order,
      as a Python dict does; numbers are integers. */
  datatype Json =
    | JNull
    | JBool(b: bool)
    | JNum(n: int)
    | JStr(s: string)
    | JArr(items: seq<Json>)
    | JObj(members: seq<(string, Json)>)

  type Members = seq<(string, Json)>

  /** The value stored under `k`, as `d.get(k)` sees it (the first member
      carrying that key; json.loads never yields two). */
  function Find(ms: Members, k: string): Option<Json> {
    if |ms| == 0 then None
    else if ms[0].0 == k then Some(ms[0].1)
    else Find(ms[1..], k)
  }

  /** Lookup in a concatenation tries the first part, then the second. */
  lemma FindAppend(a: Members, b: Members, k: string)
    ensures Find(a + b, k) == if Find(a, k).Some? then Find(a, k) else Find(b, k)
  {
    if |a| == 0 {
      assert a + b == b;
    } else {
      assert (a + b)[0] == a[0];
      assert (a + b)[1..] == a[1..] + b;
      FindAppend(a[1..], b, k);
    }
  }

  /** Python's `k in d`. */
  predicate HasKey(ms: Members, k: string) {
    Find(ms, k).Some?
  }

  /** Python's `d[k]` where the key is known to be present. */
  function Get(ms: Members, k: string): Json
    requires HasKey(ms, k)
  {
    Find(ms, k).value
  }

  /** Python's `d[k] = v`: an existing key keeps its position and takes the
      new value, a new key goes to the end. */
  function Put(ms: Members, k: string, v: Json): (r: Members)
    ensures forall k' :: Find(r, k') == if k' == k then Some(v) else Find(ms, k')
    ensures |r| == if HasKey(ms, k) then |ms| else |ms| + 1
  {
    if |ms| == 0 then [(k, v)]
    else if ms[0].0 == k then [(k, v)] + ms[1..]
    else
      var rest := Put(ms[1..], k, v);
      assert forall k' :: Find([ms[0]] + rest, k') == if k' == ms[0].0 then Some(ms[0].1) else Find(rest, k');
      [ms[0]] + rest
  }

  /** Assigning a key the dictionary does not have appends it. */
  lemma {:induction false} PutFresh(ms: Members, k: string, v: Json)
    requires !HasKey(ms, k)
    ensures Put(ms, k, v) == ms + [(k, v)]
  {
    if |ms| > 0 {
      PutFresh(ms[1..], k, v);
      assert [ms[0]] + (ms[1..] + [(k, v)]) == ms + [(k, v)];
    }
  }
}

/** Sequence helpers the PHP model is built from: first-match search in keyed
    entries (PHP array lookup) and joining with a glue character (PHP `implode`)
    together with the split that undoes it. */
module Sequences {
  import opened Results

  /** Entry `i` is the first one whose key is `key`. */
  predicate FirstKeyAt<V>(entries: seq<(string, V)>, key: string, i: int) {
    0 <= i < |entries| && entries[i].0 == key && forall j :: 0 <= j < i ==> entries[j].0 != key
  }

  /** Index of the first entry whose key is `key`. */
  function KeyIndex<V>(entries: seq<(string, V)>, key: string): (r: Option<nat>)
    ensures r.Some? ==> FirstKeyAt(entries, key, r.value)
    ensures r.None? <==> forall j :: 0 <= j < |entries| ==> entries[j].0 != key
    decreases |entries|
  {
    if |entries| == 0 then None
    else if entries[0].0 == key then Some(0)
    else
      match KeyIndex(entries[1..], key)
      case None => None
      case Some(k) =>
        assert forall j :: 1 <= j < k + 1 ==> entries[j] == entries[1..][j - 1];
        Some(k + 1)
  }

  /** The value stored under `key`: PHP's `isset($a[$key]) ? $a[$key] : ...`
      before the null test. */
  function Lookup<V>(entries: seq<(string, V)>, key: string): (r: Option<V>)
    ensures r.None? <==> forall j :: 0 <= j < |entries| ==> entries[j].0 != key
    ensures r.Some? ==> (key, r.value) in entries
    ensures forall i :: FirstKeyAt(entries, key, i) ==> r == Some(entries[i].1)
  {
    match KeyIndex(entries, key)
    case None => None
    case Some(i) => Some(entries[i].1)
  }

  /** `implode(sep, parts)` for string parts. */
  function Join(sep: char, parts: seq<string>): string
    decreases |parts|
  {
    if |parts| == 0 then ""
    else if |parts| == 1 then parts[0]
    else parts[0] + [sep] + Join(sep, parts[1..])
  }

  /** `explode(sep, s)`: the pieces of `s` between occurrences of `sep`. */
  function Split(sep: char, s: string): (r: seq<string>)
    ensures |r| > 0
    decreases |s|
  {
    if |s| == 0 then [""]
    else
      var rest := Split(sep, s[1..]);
      if s[0] == sep then [""] + rest
      else [[s[0]] + rest[0]] + rest[1..]
  }

  /** Splitting a sep-free prefix followed by `t` glues the prefix to the first piece of `t`. */
  lemma {:induction false} SplitFreePrefix(sep: char, p: string, t: string)
    requires sep !in p
    ensures Split(sep, p + t) == [p + Split(sep, t)[0]] + Split(sep, t)[1..]
    decreases |p|
  {
    if |p| == 0 {
      assert p + t == t;
      var r := Split(sep, t);
      assert r == [r[0]] + r[1..];
      assert p + r[0] == r[0];
    } else {
      assert (p + t)[1..] == p[1..] + t;
      SplitFreePrefix(sep, p[1..], t);
      assert [p[0]] + (p[1..] + Split(sep, t)[0]) == p + Split(sep, t)[0];
    }
  }

  /** Join and Split are inverse when no part contains the separator. */
  lemma {:induction false} SplitJoin(sep: char, parts: seq<string>)
    requires |parts| > 0
    requires forall i :: 0 <= i < |parts| ==> sep !in parts[i]
    ensures Split(sep, Join(sep, parts)) == parts
    decreases |parts|
  {
    if |parts| == 1 {
      SplitFreePrefix(sep, parts[0], "");
      assert parts[0] + "" == parts[0];
    } else {
      var rest := Join(sep, parts[1..]);
      assert Join(sep, parts) == parts[0] + ([sep] + rest);
      SplitFreePrefix(sep, parts[0], [sep] + rest);
      assert ([sep] + rest)[1..] == rest;
      assert Split(sep, [sep] + rest) == [""] + Split(sep, rest);
      SplitJoin(sep, parts[1..]);
      assert parts[0] + "" == parts[0];
      assert parts == [parts[0]] + parts[1..];
    }
  }
}

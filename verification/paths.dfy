/** Dotted field paths (`get_keys`, src/lib.rs). A path such as
    "address.street" names the field `address` and, inside that field's
    value, the path "street". */
module Paths {

  /** Splits `path` once, at its first `.`: the head names a field of the
      current value and the remainder, which may hold further dots, is
      handed to that field. A path without a dot is all head. */
  function GetKeys(path: string): (r: (string, string))
    ensures '.' !in r.0
    ensures '.' !in path ==> r == (path, "")
    ensures '.' in path ==> r.0 + "." + r.1 == path
  {
    if path == [] then ("", "")
    else if path[0] == '.' then ("", path[1..])
    else
      var (head, rest) := GetKeys(path[1..]);
      assert [path[0]] + path[1..] == path;
      assert forall c | c in path[1..] :: c in path;
      ([path[0]] + head, rest)
  }

  /** The split is unique: joining a dot-free head to any remainder and
      splitting again gives back exactly that head and remainder. */
  lemma {:induction false} GetKeysOfJoined(head: string, rest: string)
    requires '.' !in head
    ensures GetKeys(head + "." + rest) == (head, rest)
    decreases |head|
  {
    var p := head + "." + rest;
    if head == [] {
      assert p == "." + rest;
    } else {
      assert p[0] == head[0];
      assert p[1..] == head[1..] + "." + rest;
      assert head[0] in head;
      GetKeysOfJoined(head[1..], rest);
      assert [head[0]] + head[1..] == head;
    }
  }
}

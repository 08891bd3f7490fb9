/** String helpers the rendering engine relies on: blank padding, joining,
    visible length (terminal escape sequences do not occupy columns), the
    case conversions used for labels, and the byte order Rust sorts
    `String` keys by. */
module Text {

  /** `n` blanks: what `format!("{:<n$}", "")` produces. */
  function Spaces(n: nat): (r: string)
    ensures |r| == n
    ensures forall i | 0 <= i < n :: r[i] == ' '
  {
    if n == 0 then "" else " " + Spaces(n - 1)
  }

  /** `parts.join(sep)`. */
  function Join(parts: seq<string>, sep: string): (r: string)
    ensures |parts| == 0 ==> r == ""
    ensures |parts| == 1 ==> r == parts[0]
    ensures |parts| > 0 ==> |r| == TotalLength(parts) + (|parts| - 1) * |sep|
  {
    if |parts| == 0 then ""
    else if |parts| == 1 then parts[0]
    else parts[0] + sep + Join(parts[1..], sep)
  }

  function TotalLength(parts: seq<string>): nat {
    if parts == [] then 0 else |parts[0]| + TotalLength(parts[1..])
  }

  /** Joining one more part appends the separator and that part at the end:
      the parts appear in the result in their original order. */
  lemma {:induction false} JoinSnoc(parts: seq<string>, p: string, sep: string)
    requires |parts| > 0
    ensures Join(parts + [p], sep) == Join(parts, sep) + sep + p
    decreases |parts|
  {
    if |parts| == 1 {
      assert parts + [p] == [parts[0], p];
      assert ([parts[0], p])[1..] == [p];
    } else {
      assert (parts + [p])[1..] == parts[1..] + [p];
      JoinSnoc(parts[1..], p, sep);
    }
  }

  // ---------------------------------------------------------------------
  // Visible length

  /** The escape character that opens a terminal control sequence. */
  const Esc: char := 27 as char

  /** A byte that ends a CSI sequence (ECMA-48 section 5.4: 0x40 to 0x7E). */
  predicate IsFinal(c: char) {
    '@' <= c <= '~'
  }

  /** Drops the parameter and intermediate bytes of a CSI sequence, and its
      final byte; what follows the sequence is returned. */
  function SkipCsi(s: string): (r: string)
    ensures |r| <= |s|
    ensures r == s[|s| - |r|..]
  {
    if s == [] then []
    else if IsFinal(s[0]) then s[1..]
    else SkipCsi(s[1..])
  }

  /** The text a terminal shows: CSI sequences (`ESC [ ... final`) removed,
      and any other lone escape character removed. */
  function StripAnsi(s: string): (r: string)
    ensures |r| <= |s|
    ensures Esc !in s ==> r == s
    decreases |s|
  {
    if s == [] then []
    else if s[0] == Esc then
      if |s| >= 2 && s[1] == '[' then StripAnsi(SkipCsi(s[2..])) else StripAnsi(s[1..])
    else [s[0]] + StripAnsi(s[1..])
  }

  /** Number of columns `s` occupies on a terminal. */
  function VisibleLen(s: string): (r: nat)
    ensures r <= |s|
    ensures Esc !in s ==> r == |s|
  {
    |StripAnsi(s)|
  }

  /** Plain text in front of anything is kept verbatim by StripAnsi. */
  lemma {:induction false} StripPlainPrefix(a: string, b: string)
    requires Esc !in a
    ensures StripAnsi(a + b) == a + StripAnsi(b)
    decreases |a|
  {
    if a != [] {
      assert a[0] in a;
      assert (a + b)[0] == a[0];
      assert (a + b)[1..] == a[1..] + b;
      StripPlainPrefix(a[1..], b);
      assert StripAnsi(a + b) == [a[0]] + StripAnsi(a[1..] + b);
      assert a == [a[0]] + a[1..];
      assert [a[0]] + (a[1..] + StripAnsi(b)) == a + StripAnsi(b);
    } else {
      assert a + b == b;
    }
  }

  /** Parameter bytes of an SGR sequence: digits and `;`. */
  predicate IsSgrParams(p: string) {
    forall i | 0 <= i < |p| :: '0' <= p[i] <= '9' || p[i] == ';'
  }

  lemma {:induction false} SkipSgr(p: string, rest: string)
    requires IsSgrParams(p)
    ensures SkipCsi(p + "m" + rest) == rest
    decreases |p|
  {
    if p == [] {
      assert p + "m" + rest == "m" + rest;
    } else {
      assert (p + "m" + rest)[0] == p[0];
      assert (p + "m" + rest)[1..] == p[1..] + "m" + rest;
      SkipSgr(p[1..], rest);
    }
  }

  /** The SGR sequence `ESC [ params m`, which sets a terminal style. */
  function Sgr(params: string): string {
    [Esc] + "[" + params + "m"
  }

  /** `s` rendered with a terminal style (bold, a colour, ...) and reset. */
  function Styled(s: string, params: string): string {
    Sgr(params) + s + Sgr("0")
  }

  /** A complete SGR sequence in front of `rest` is invisible. */
  lemma StripSgr(params: string, rest: string)
    requires IsSgrParams(params)
    ensures StripAnsi(Sgr(params) + rest) == StripAnsi(rest)
  {
    var x := Sgr(params) + rest;
    assert x[0] == Esc && x[1] == '[';
    assert x[2..] == params + "m" + rest;
    SkipSgr(params, rest);
  }

  /** Styling does not change the number of columns a text occupies. */
  lemma StyledWidth(s: string, params: string)
    requires Esc !in s
    requires IsSgrParams(params)
    ensures VisibleLen(Styled(s, params)) == |s|
  {
    var reset := Sgr("0");
    assert Styled(s, params) == Sgr(params) + (s + reset);
    StripSgr(params, s + reset);
    StripPlainPrefix(s, reset);
    assert IsSgrParams("0");
    assert reset + "" == reset;
    StripSgr("0", "");
  }

  /** A text is a prefix of itself followed by anything. */
  lemma PrefixOfAppend(a: string, b: string)
    ensures a <= a + b
  {
    assert (a + b)[..|a|] == a;
  }

  lemma PrefixTrans(a: string, b: string, c: string)
    requires a <= b && b <= c
    ensures a <= c
  {
    assert c[..|a|] == b[..|a|];
  }

  // ---------------------------------------------------------------------
  // Case conversion of identifiers

  function Upper(c: char): char {
    if 'a' <= c <= 'z' then (c as int - 32) as char else c
  }

  /** Title case of a snake_case identifier: `_` becomes a blank and each
      word starts with a capital ("first_field" gives "First Field"). */
  function TitleFrom(s: string, wordStart: bool): (r: string)
    ensures |r| == |s|
  {
    if s == [] then []
    else if s[0] == '_' then " " + TitleFrom(s[1..], true)
    else [if wordStart then Upper(s[0]) else s[0]] + TitleFrom(s[1..], false)
  }

  function TitleCase(name: string): (r: string)
    ensures |r| == |name|
  {
    TitleFrom(name, true)
  }

  /** Upper snake case of a header path ("address.street" gives
      "ADDRESS.STREET"). */
  function UpperSnake(path: string): (r: string)
    ensures |r| == |path|
  {
    if path == [] then [] else [Upper(path[0])] + UpperSnake(path[1..])
  }

  // ---------------------------------------------------------------------
  // Ordering of keys

  /** Lexicographic order on strings, the order `Vec<&String>::sort` uses. */
  predicate LessEq(a: string, b: string) {
    |a| == 0 || (|b| > 0 && (a[0] < b[0] || (a[0] == b[0] && LessEq(a[1..], b[1..]))))
  }

  predicate Below(a: string, b: string) {
    LessEq(a, b) && a != b
  }

  lemma {:induction false} LessEqTotal(a: string, b: string)
    ensures LessEq(a, b) || LessEq(b, a)
    decreases |a|
  {
    if |a| > 0 && |b| > 0 && a[0] == b[0] {
      LessEqTotal(a[1..], b[1..]);
    }
  }

  lemma {:induction false} LessEqReflexive(a: string)
    ensures LessEq(a, a)
    decreases |a|
  {
    if |a| > 0 {
      LessEqReflexive(a[1..]);
    }
  }

  lemma {:induction false} LessEqAntisymmetric(a: string, b: string)
    requires LessEq(a, b) && LessEq(b, a)
    ensures a == b
    decreases |a|
  {
    if |a| > 0 {
      LessEqAntisymmetric(a[1..], b[1..]);
      assert a == [a[0]] + a[1..];
      assert b == [b[0]] + b[1..];
    }
  }

  lemma {:induction false} LessEqTransitive(a: string, b: string, c: string)
    requires LessEq(a, b) && LessEq(b, c)
    ensures LessEq(a, c)
    decreases |a|
  {
    if |a| > 0 && a[0] == b[0] && b[0] == c[0] {
      LessEqTransitive(a[1..], b[1..], c[1..]);
    }
  }

  predicate IsLeast(m: string, ks: set<string>) {
    m in ks && forall k | k in ks :: LessEq(m, k)
  }

  lemma {:induction false} LeastExists(ks: set<string>)
    requires ks != {}
    ensures exists m :: IsLeast(m, ks)
    decreases |ks|
  {
    var x :| x in ks;
    LessEqReflexive(x);
    if ks == {x} {
      assert IsLeast(x, ks);
    } else {
      LeastExists(ks - {x});
      var m :| IsLeast(m, ks - {x});
      LessEqTotal(m, x);
      if LessEq(m, x) {
        assert IsLeast(m, ks);
      } else {
        forall k | k in ks
          ensures LessEq(x, k)
        {
          if k != x {
            LessEqTransitive(x, m, k);
          }
        }
        assert IsLeast(x, ks);
      }
    }
  }

  /** The smallest key of a non-empty set. */
  function Least(ks: set<string>): (m: string)
    requires ks != {}
    ensures m in ks
    ensures forall k | k in ks :: LessEq(m, k)
  {
    LeastExists(ks);
    assert forall a, b | IsLeast(a, ks) && IsLeast(b, ks) :: a == b by {
      forall a, b | IsLeast(a, ks) && IsLeast(b, ks)
        ensures a == b
      {
        LessEqAntisymmetric(a, b);
      }
    }
    var m :| m in ks && IsLeast(m, ks);
    m
  }

  /** The keys of a map in ascending order, as the Rust program collects and
      sorts them before writing a map. */
  function SortedKeys(ks: set<string>): (r: seq<string>)
    ensures |r| == |ks|
    decreases |ks|
  {
    if ks == {} then []
    else
      var m := Least(ks);
      [m] + SortedKeys(ks - {m})
  }

  /** The sorted keys are exactly the keys of the set. */
  lemma {:induction false} SortedKeysMembers(ks: set<string>)
    ensures forall k :: k in SortedKeys(ks) <==> k in ks
    decreases |ks|
  {
    if ks != {} {
      var m := Least(ks);
      SortedKeysMembers(ks - {m});
      assert SortedKeys(ks) == [m] + SortedKeys(ks - {m});
    }
  }

  /** The keys come out strictly ascending, so each appears once. */
  lemma {:induction false} SortedKeysAscending(ks: set<string>)
    ensures forall i, j | 0 <= i < j < |SortedKeys(ks)| :: Below(SortedKeys(ks)[i], SortedKeys(ks)[j])
    decreases |ks|
  {
    if ks != {} {
      var m := Least(ks);
      var rest := SortedKeys(ks - {m});
      SortedKeysAscending(ks - {m});
      SortedKeysMembers(ks - {m});
      var r := SortedKeys(ks);
      assert r == [m] + rest;
      forall i, j | 0 <= i < j < |r|
        ensures Below(r[i], r[j])
      {
        if i == 0 {
          var k := rest[j - 1];
          assert r[0] == m && r[j] == k;
          assert k in ks - {m};
          assert LessEq(m, k) && m != k;
        } else {
          assert r[i] == rest[i - 1] && r[j] == rest[j - 1];
          assert Below(rest[i - 1], rest[j - 1]);
        }
      }
    }
  }

  /** Longest length among `keys`, 0 when there are none
      (`max().unwrap_or_default()`). */
  function MaxLen(keys: seq<string>): (r: nat)
    ensures forall i | 0 <= i < |keys| :: |keys[i]| <= r
    ensures keys == [] ==> r == 0
  {
    if keys == [] then 0
    else
      var rest := MaxLen(keys[1..]);
      if |keys[0]| >= rest then |keys[0]| else rest
  }

  /** The longest length is the length of one of the keys. */
  lemma {:induction false} MaxLenAttained(keys: seq<string>)
    requires keys != []
    ensures exists i | 0 <= i < |keys| :: |keys[i]| == MaxLen(keys)
  {
    if MaxLen(keys) == |keys[0]| {
      assert |keys[0]| == MaxLen(keys);
    } else {
      assert MaxLen(keys) == MaxLen(keys[1..]) && keys[1..] != [];
      MaxLenAttained(keys[1..]);
      var i :| 0 <= i < |keys[1..]| && |keys[1..][i]| == MaxLen(keys[1..]);
      assert keys[i + 1] == keys[1..][i];
    }
  }
}

/** JavaScript's ordering of strings (the relational operators `<`, `<=` and
    the default comparator of `Array.prototype.sort`), sorting of key sets,
    prefix tests, and the decimal rendering of non-negative integers that
    JavaScript uses when it turns a number into a string. */
module Strings {

  /** `a < b` on JavaScript strings: lexicographic order of characters, a
      proper prefix coming first. */
  predicate Less(a: string, b: string)
    decreases |a|
  {
    if |a| == 0 then |b| > 0
    else if |b| == 0 then false
    else if a[0] == b[0] then Less(a[1..], b[1..])
    else a[0] < b[0]
  }

  /** `a <= b` on JavaScript strings. */
  predicate LessEq(a: string, b: string) {
    !Less(b, a)
  }

  lemma {:induction false} LessIrreflexive(a: string)
    ensures !Less(a, a)
    decreases |a|
  {
    if |a| > 0 {
      LessIrreflexive(a[1..]);
    }
  }

  lemma {:induction false} LessAsymmetric(a: string, b: string)
    ensures Less(a, b) ==> !Less(b, a)
    decreases |a|
  {
    if |a| > 0 && |b| > 0 && a[0] == b[0] {
      LessAsymmetric(a[1..], b[1..]);
    }
  }

  lemma {:induction false} LessTransitive(a: string, b: string, c: string)
    ensures Less(a, b) && Less(b, c) ==> Less(a, c)
    decreases |a|
  {
    if |a| > 0 && |b| > 0 && |c| > 0 && a[0] == b[0] && b[0] == c[0] {
      LessTransitive(a[1..], b[1..], c[1..]);
    }
  }

  lemma {:induction false} LessTrichotomy(a: string, b: string)
    ensures Less(a, b) || a == b || Less(b, a)
    decreases |a|
  {
    if |a| > 0 && |b| > 0 && a[0] == b[0] {
      LessTrichotomy(a[1..], b[1..]);
      if a[1..] == b[1..] {
        assert a == [a[0]] + a[1..] && b == [b[0]] + b[1..];
      }
    }
  }

  /** The facts above, for every pair and triple at once. */
  lemma LessIsStrictTotalOrder()
    ensures forall a: string :: !Less(a, a)
    ensures forall a: string, b: string :: Less(a, b) ==> !Less(b, a)
    ensures forall a: string, b: string :: Less(a, b) || a == b || Less(b, a)
    ensures forall a: string, b: string, c: string :: Less(a, b) && Less(b, c) ==> Less(a, c)
  {
    forall a: string ensures !Less(a, a) { LessIrreflexive(a); }
    forall a: string, b: string
      ensures (Less(a, b) ==> !Less(b, a)) && (Less(a, b) || a == b || Less(b, a))
    {
      LessAsymmetric(a, b);
      LessTrichotomy(a, b);
    }
    forall a: string, b: string, c: string ensures Less(a, b) && Less(b, c) ==> Less(a, c) {
      LessTransitive(a, b, c);
    }
  }

  /** Two strings of the same length compare, after anything is appended to
      each, as they compare on their own whenever they differ. */
  lemma {:induction false} LessAppendSameLength(a: string, b: string, s: string, t: string)
    requires |a| == |b| && a != b
    ensures Less(a + s, b + t) <==> Less(a, b)
    decreases |a|
  {
    assert |a| > 0;
    if a[0] == b[0] {
      assert (a + s)[1..] == a[1..] + s;
      assert (b + t)[1..] == b[1..] + t;
      LessAppendSameLength(a[1..], b[1..], s, t);
    }
  }

  /** A common prefix does not change how two strings compare. */
  lemma {:induction false} LessCommonPrefix(p: string, s: string, t: string)
    ensures Less(p + s, p + t) <==> Less(s, t)
    decreases |p|
  {
    if |p| > 0 {
      assert (p + s)[1..] == p[1..] + s;
      assert (p + t)[1..] == p[1..] + t;
      LessCommonPrefix(p[1..], s, t);
    } else {
      assert p + s == s && p + t == t;
    }
  }

  /** `s.startsWith(prefix)`. */
  predicate StartsWith(s: string, prefix: string) {
    |prefix| <= |s| && s[..|prefix|] == prefix
  }

  /** Strictly ascending, hence also free of duplicates. */
  ghost predicate StrictlySorted(s: seq<string>) {
    forall i, j :: 0 <= i < j < |s| ==> Less(s[i], s[j])
  }

  /** Every non-empty finite set of strings has a least element. */
  lemma {:induction false} LeastExists(keys: set<string>)
    requires keys != {}
    ensures exists m :: m in keys && forall k :: k in keys ==> LessEq(m, k)
    decreases |keys|
  {
    var x :| x in keys;
    LessIrreflexive(x);
    if keys == {x} {
      assert forall k :: k in keys ==> k == x;
      assert x in keys && forall k :: k in keys ==> LessEq(x, k);
    } else {
      LeastExists(keys - {x});
      var m :| m in keys - {x} && forall k :: k in keys - {x} ==> LessEq(m, k);
      if Less(x, m) {
        forall k | k in keys ensures LessEq(x, k) {
          if k != x {
            assert k in keys - {x};
            LessTransitive(k, x, m);
          }
        }
        assert x in keys && forall k :: k in keys ==> LessEq(x, k);
      } else {
        forall k | k in keys ensures LessEq(m, k) {
          if k != x {
            assert k in keys - {x};
          }
        }
        assert m in keys && forall k :: k in keys ==> LessEq(m, k);
      }
    }
  }

  /** `Object.keys(...)` followed by `sort()`: the keys in ascending order. */
  function SortedKeys(keys: set<string>): (r: seq<string>)
    ensures StrictlySorted(r)
    ensures forall k :: k in r <==> k in keys
    ensures |r| == |keys|
    decreases |keys|
  {
    if keys == {} then []
    else
      LeastExists(keys);
      LessIsStrictTotalOrder();
      var m :| m in keys && forall k :: k in keys ==> LessEq(m, k);
      var rest := SortedKeys(keys - {m});
      assert forall k :: k in rest ==> Less(m, k);
      [m] + rest
  }

  /** A strictly sorted sequence is fixed by its elements: two strictly
      sorted sequences with the same elements are equal. */
  lemma {:induction false} StrictlySortedUnique(a: seq<string>, b: seq<string>)
    requires StrictlySorted(a) && StrictlySorted(b)
    requires forall k :: k in a <==> k in b
    ensures a == b
    decreases |a|
  {
    LessIsStrictTotalOrder();
    if |a| > 0 { assert a[0] in b; }
    if |b| > 0 { assert b[0] in a; }
    if |a| > 0 && |b| > 0 {
      var a0, b0 := a[0], b[0];
      var j :| 0 <= j < |b| && b[j] == a0;
      assert j == 0 || Less(b0, a0);
      var i :| 0 <= i < |a| && a[i] == b0;
      assert i == 0 || Less(a0, b0);
      assert a0 == b0;
      forall k ensures k in a[1..] <==> k in b[1..] {
        if k in a[1..] {
          var i :| 1 <= i < |a| && a[i] == k;
          assert Less(a[0], k);
          assert k in a && k in b;
          var j :| 0 <= j < |b| && b[j] == k;
          assert j != 0;
        }
        if k in b[1..] {
          var i :| 1 <= i < |b| && b[i] == k;
          assert Less(b[0], k);
          assert k in b && k in a;
          var j :| 0 <= j < |a| && a[j] == k;
          assert j != 0;
        }
      }
      StrictlySortedUnique(a[1..], b[1..]);
      assert a == [a[0]] + a[1..] && b == [b[0]] + b[1..];
    }
  }

  /** The character for a decimal digit, `'0'` to `'9'` in ascending order. */
  function DigitChar(d: nat): (c: char)
    requires d < 10
    ensures c as int == '0' as int + d
  {
    '0' + (d as char)
  }

  /** `String(n)` for a non-negative integer: its decimal digits, without
      leading zeros. */
  function Decimal(n: nat): (s: string)
    ensures |s| > 0
    decreases n
  {
    if n < 10 then [DigitChar(n)] else Decimal(n / 10) + [DigitChar(n % 10)]
  }

  /** Decimal renderings of the same width compare as the numbers do. */
  lemma {:induction false} DecimalOrderSameWidth(a: nat, b: nat)
    requires |Decimal(a)| == |Decimal(b)|
    ensures Less(Decimal(a), Decimal(b)) <==> a < b
    ensures Decimal(a) == Decimal(b) <==> a == b
    decreases a
  {
    if a < 10 || b < 10 {
      if a >= 10 { DecimalWidthAtLeastTwo(a); }
      if b >= 10 { DecimalWidthAtLeastTwo(b); }
    } else {
      var pa, pb := Decimal(a / 10), Decimal(b / 10);
      var ca, cb := [DigitChar(a % 10)], [DigitChar(b % 10)];
      DecimalOrderSameWidth(a / 10, b / 10);
      if a / 10 != b / 10 {
        LessAppendSameLength(pa, pb, ca, cb);
        assert Decimal(a) != Decimal(b) by {
          assert Decimal(a)[..|pa|] == pa && Decimal(b)[..|pb|] == pb;
        }
      } else {
        LessCommonPrefix(pa, ca, cb);
        assert Decimal(a) == Decimal(b) <==> ca == cb;
      }
    }
  }

  lemma DecimalWidthAtLeastTwo(n: nat)
    requires n >= 10
    ensures |Decimal(n)| >= 2
  {
  }

  // ---------------------------------------------------------------------
  // JSON.stringify of a string

  /** The hexadecimal digit for `d`, lower case as `JSON.stringify` writes
      it. */
  function HexDigit(d: nat): (c: char)
    requires d < 16
    ensures d < 10 ==> c as int == '0' as int + d
    ensures d >= 10 ==> c as int == 'a' as int + d - 10
  {
    if d < 10 then '0' + (d as char) else 'a' + ((d - 10) as char)
  }

  /** The escape `JSON.stringify` writes for one character of a string. */
  function JsonChar(c: char): (r: string)
    ensures c != '"' && c != '\\' && c >= ' ' ==> r == [c]
    ensures c == '"' || c == '\\' ==> r == ['\\', c]
  {
    if c == '"' then "\\\""
    else if c == '\\' then "\\\\"
    else if c == '\U{8}' then "\\b"
    else if c == '\t' then "\\t"
    else if c == '\n' then "\\n"
    else if c == '\U{C}' then "\\f"
    else if c == '\r' then "\\r"
    else if c < ' ' then "\\u00" + [HexDigit(c as int / 16), HexDigit(c as int % 16)]
    else [c]
  }

  /** `JSON.stringify(s)` for a string: quoted, with `"`, `\` and control
      characters escaped. */
  function JsonString(s: string): (r: string)
    ensures |r| >= |s| + 2 && r[0] == '"' && r[|r| - 1] == '"'
    ensures (forall i :: 0 <= i < |s| ==> s[i] != '"' && s[i] != '\\' && s[i] >= ' ') ==> r == "\"" + s + "\""
  {
    "\"" + JsonBody(s) + "\""
  }

  function JsonBody(s: string): (r: string)
    ensures |r| >= |s|
    ensures (forall i :: 0 <= i < |s| ==> s[i] != '"' && s[i] != '\\' && s[i] >= ' ') ==> r == s
    decreases |s|
  {
    if s == [] then [] else JsonChar(s[0]) + JsonBody(s[1..])
  }
}

/** The ascending order in which the object store's cursor walks its keys.
    A key is the composite key path `["timestamp", "videoId"]`; composite
    keys compare component by component, the number first, then the string
    lexicographically. */
module KeyOrder {

  /** The composite key `(timestamp, videoId)`. */
  type Key = (int, string)

  /** Lexicographic order on strings: a proper prefix comes first, otherwise
      the first differing character decides. */
  predicate StrLess(s: string, t: string): (less: bool)
    ensures less ==> s != t && |t| > 0
  {
    |t| > 0 && (|s| == 0 || s[0] < t[0] || (s[0] == t[0] && StrLess(s[1..], t[1..])))
  }

  lemma {:induction false} StrLessIrreflexive(s: string)
    ensures !StrLess(s, s)
  {
    if |s| > 0 {
      StrLessIrreflexive(s[1..]);
    }
  }

  lemma {:induction false} StrLessTransitive(a: string, b: string, c: string)
    requires StrLess(a, b) && StrLess(b, c)
    ensures StrLess(a, c)
  {
    if |a| > 0 && a[0] == b[0] && b[0] == c[0] {
      StrLessTransitive(a[1..], b[1..], c[1..]);
    }
  }

  lemma {:induction false} StrLessTotal(a: string, b: string)
    requires a != b
    ensures StrLess(a, b) || StrLess(b, a)
  {
    if |a| > 0 && |b| > 0 && a[0] == b[0] {
      assert a == [a[0]] + a[1..] && b == [b[0]] + b[1..];
      StrLessTotal(a[1..], b[1..]);
    }
  }

  /** The cursor order on composite keys. */
  predicate KeyLess(x: Key, y: Key): (less: bool)
    ensures less ==> x != y
    ensures x.0 < y.0 ==> less
    ensures less ==> x.0 <= y.0
  {
    x.0 < y.0 || (x.0 == y.0 && StrLess(x.1, y.1))
  }

  lemma KeyLessIrreflexive(k: Key)
    ensures !KeyLess(k, k)
  {
    StrLessIrreflexive(k.1);
  }

  lemma KeyLessTransitive(a: Key, b: Key, c: Key)
    requires KeyLess(a, b) && KeyLess(b, c)
    ensures KeyLess(a, c)
  {
    if a.0 == b.0 == c.0 {
      StrLessTransitive(a.1, b.1, c.1);
    }
  }

  lemma KeyLessTotal(a: Key, b: Key)
    requires a != b
    ensures KeyLess(a, b) || KeyLess(b, a)
  {
    if a.0 == b.0 {
      StrLessTotal(a.1, b.1);
    }
  }

  /** `m` is the least key of `s`. */
  predicate IsLeast(m: Key, s: set<Key>) {
    m in s && forall k :: k in s ==> !KeyLess(k, m)
  }

  /** Every finite non-empty set of keys has a least element, so a cursor
      always has a well-defined next key. */
  lemma {:induction false} LeastKeyExists(s: set<Key>)
    requires s != {}
    ensures exists m :: IsLeast(m, s)
  {
    var x :| x in s;
    if s == {x} {
      KeyLessIrreflexive(x);
      assert IsLeast(x, s);
    } else {
      var rest := s - {x};
      LeastKeyExists(rest);
      var m :| IsLeast(m, rest);
      if KeyLess(x, m) {
        forall k | k in s
          ensures !KeyLess(k, x)
        {
          if k == x {
            KeyLessIrreflexive(x);
          } else if KeyLess(k, x) {
            assert k in rest;
            KeyLessTransitive(k, x, m);
          }
        }
        assert IsLeast(x, s);
      } else {
        assert IsLeast(m, s);
      }
    }
  }
}

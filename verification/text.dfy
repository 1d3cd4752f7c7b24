/** String helpers with the meaning Python gives them. Strings are sequences of
    code points, as Python's `str`. */
module Text {

  /** `s[:n]` for a non-negative `n`: the first `n` characters, or all of `s`. */
  function Take(s: string, n: nat): (r: string)
    ensures |r| == if |s| <= n then |s| else n
    ensures r == s[..|r|]
  {
    if |s| <= n then s else s[..n]
  }

  /** `sep.join(parts)`: no parts give `""`; otherwise the text starts with
      the first part and ends with the last. */
  function Join(parts: seq<string>, sep: string): (r: string)
    ensures parts == [] ==> r == ""
    ensures parts != [] ==> |parts[0]| <= |r| && r[..|parts[0]|] == parts[0]
    ensures parts != [] ==> |parts[|parts| - 1]| <= |r| && r[|r| - |parts[|parts| - 1]|..] == parts[|parts| - 1]
    decreases |parts|
  {
    if |parts| == 0 then ""
    else if |parts| == 1 then parts[0]
    else
      var rest := Join(parts[1..], sep);
      assert parts[1..][|parts[1..]| - 1] == parts[|parts| - 1];
      assert (parts[0] + sep + rest)[..|parts[0]|] == parts[0];
      assert (parts[0] + sep + rest)[|parts[0] + sep + rest| - |parts[|parts| - 1]|..]
          == rest[|rest| - |parts[|parts| - 1]|..];
      parts[0] + sep + rest
  }

  /** Joining four parts puts the separator between each two. */
  lemma JoinFour(a: string, b: string, c: string, d: string, sep: string)
    ensures Join([a, b, c, d], sep) == a + sep + b + sep + c + sep + d
  {
    assert [a, b, c, d][1..] == [b, c, d];
    assert [b, c, d][1..] == [c, d];
    assert [c, d][1..] == [d];
    assert Join([c, d], sep) == c + sep + d;
    assert Join([b, c, d], sep) == b + sep + (c + sep + d);
    calc {
      Join([a, b, c, d], sep);
      a + sep + (b + sep + (c + sep + d));
    == { AppendAssoc(b + sep, c + sep, d); AppendAssoc(b + sep, c, sep); }
      a + sep + (b + sep + c + sep + d);
    == { AppendAssoc(a + sep, b + sep + c + sep, d); AppendAssoc(a + sep, b + sep + c, sep);
         AppendAssoc(a + sep, b + sep, c); AppendAssoc(a + sep, b, sep); }
      a + sep + b + sep + c + sep + d;
    }
  }

  /** Every part occurs in the joined text. */
  lemma {:induction false} JoinContains(parts: seq<string>, sep: string, k: nat)
    requires k < |parts|
    ensures Contains(Join(parts, sep), parts[k])
    decreases |parts|
  {
    var r := Join(parts, sep);
    if k == 0 {
      assert OccursAt(r, parts[0], 0);
    } else {
      JoinContains(parts[1..], sep, k - 1);
      ContainsInRight(parts[0] + sep, Join(parts[1..], sep), parts[k]);
      assert r == (parts[0] + sep) + Join(parts[1..], sep);
    }
  }

  /** Every part occurs in the joined text, for all parts at once. */
  lemma JoinContainsAll(parts: seq<string>, sep: string)
    ensures forall k :: 0 <= k < |parts| ==> Contains(Join(parts, sep), parts[k])
  {
    forall k | 0 <= k < |parts|
      ensures Contains(Join(parts, sep), parts[k])
    {
      JoinContains(parts, sep, k);
    }
  }

  /** Joining two non-empty lists is joining their joins with one more separator. */
  lemma {:induction false} JoinAppend(a: seq<string>, b: seq<string>, sep: string)
    requires a != [] && b != []
    ensures Join(a + b, sep) == Join(a, sep) + sep + Join(b, sep)
    decreases |a|
  {
    if |a| == 1 {
      assert (a + b)[1..] == b;
    } else {
      var x, y, z := a[0] + sep, Join(a[1..], sep), Join(b, sep);
      calc {
        Join(a + b, sep);
      == { assert (a + b)[0] == a[0]; assert (a + b)[1..] == a[1..] + b; }
        x + Join(a[1..] + b, sep);
      == { JoinAppend(a[1..], b, sep); }
        x + (y + sep + z);
      == { AppendAssoc(x, y + sep, z); AppendAssoc(x, y, sep); }
        x + y + sep + z;
      }
    }
  }

  /** Concatenation is associative. */
  lemma AppendAssoc<T>(x: seq<T>, y: seq<T>, z: seq<T>)
    ensures (x + y) + z == x + (y + z)
  {
  }

  /** A non-empty `a` followed by more: dropping the first element. */
  lemma DropFirst<T>(a: seq<T>, u: seq<T>, v: seq<T>)
    requires a != []
    ensures (a + u + v)[0] == a[0] && (a + u + v)[1..] == a[1..] + u + v
    ensures [a[0]] + a[1..] == a
  {
  }

  /** A non-empty `b` is its front followed by its last element. */
  lemma SplitLast<T>(a: seq<T>, b: seq<T>)
    requires b != []
    ensures b == b[..|b| - 1] + [b[|b| - 1]]
    ensures a + b == (a + b[..|b| - 1]) + [b[|b| - 1]]
  {
  }

  /** `needle` occurs in `hay` starting at index `i`. */
  predicate OccursAt(hay: string, needle: string, i: int) {
    0 <= i && i + |needle| <= |hay| && hay[i..i + |needle|] == needle
  }

  /** `needle in hay` for strings. */
  predicate Contains(hay: string, needle: string) {
    exists i :: 0 <= i <= |hay| && OccursAt(hay, needle, i)
  }

  lemma ContainsSelf(x: string)
    ensures Contains(x, x)
  {
    assert OccursAt(x, x, 0);
  }

  /** What occurs in `a` occurs in `a + b`. */
  lemma ContainsInLeft(a: string, b: string, x: string)
    requires Contains(a, x)
    ensures Contains(a + b, x)
  {
    var i :| 0 <= i <= |a| && OccursAt(a, x, i);
    assert (a + b)[i..i + |x|] == a[i..i + |x|];
    assert OccursAt(a + b, x, i);
  }

  /** What occurs in `b` occurs in `a + b`. */
  lemma ContainsInRight(a: string, b: string, x: string)
    requires Contains(b, x)
    ensures Contains(a + b, x)
  {
    var i :| 0 <= i <= |b| && OccursAt(b, x, i);
    assert (a + b)[|a| + i..|a| + i + |x|] == b[i..i + |x|];
    assert OccursAt(a + b, x, |a| + i);
  }

  /** String order: lexicographic by code point. */
  predicate LexLe(a: string, b: string)
    decreases |a|
  {
    a == [] || (b != [] && (a[0] < b[0] || (a[0] == b[0] && LexLe(a[1..], b[1..]))))
  }

  lemma {:induction false} LexLeReflexive(a: string)
    ensures LexLe(a, a)
    decreases |a|
  {
    if a != [] {
      LexLeReflexive(a[1..]);
    }
  }

  /** Order is decided after a common prefix: `p + a <= p + b` exactly when
      `a <= b`. */
  lemma {:induction false} LexLeCommonPrefix(p: string, a: string, b: string)
    ensures LexLe(p + a, p + b) == LexLe(a, b)
    decreases |p|
  {
    if p == [] {
      assert p + a == a && p + b == b;
    } else {
      assert (p + a)[0] == p[0] == (p + b)[0];
      assert (p + a)[1..] == p[1..] + a;
      assert (p + b)[1..] == p[1..] + b;
      LexLeCommonPrefix(p[1..], a, b);
    }
  }

  /** `c.isspace()` in Python 3: the characters `str.strip()` removes. */
  predicate IsSpace(c: char) {
    c == ' ' || ('\t' <= c <= '\r') || ('\U{1c}' <= c <= '\U{1f}')
    || c == '\U{85}' || c == '\U{a0}' || c == '\U{1680}'
    || ('\U{2000}' <= c <= '\U{200a}') || c == '\U{2028}' || c == '\U{2029}'
    || c == '\U{202f}' || c == '\U{205f}' || c == '\U{3000}'
  }

  /** An ASCII decimal digit, what `\d` matches in the URLs this model reads. */
  predicate IsDigit(c: char) {
    '0' <= c <= '9'
  }
}

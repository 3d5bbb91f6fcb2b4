/** Slash-separated paths as JavaScript's `String.prototype.split("/")`,
    `Array.prototype.join("/")` and `String.prototype.length` see them. */
module Paths {

  /** `s.split("/")`: the pieces between slashes, always at least one. */
  function Split(s: string): (parts: seq<string>)
    ensures |parts| >= 1
    ensures forall i :: 0 <= i < |parts| ==> '/' !in parts[i]
  {
    if s == [] then [[]]
    else
      var rest := Split(s[1..]);
      if s[0] == '/' then [[]] + rest
      else [[s[0]] + rest[0]] + rest[1..]
  }

  /** `parts.join("/")`: splitting the result again gives back pieces that
      hold no slash. */
  function Join(parts: seq<string>): (s: string)
    requires |parts| >= 1
    ensures (forall i :: 0 <= i < |parts| ==> '/' !in parts[i]) ==> Split(s) == parts
    decreases |parts|
  {
    if |parts| == 1 then
      SplitNoSlash(parts[0]);
      parts[0]
    else
      var rest := Join(parts[1..]);
      SplitAppend(parts[0], rest);
      parts[0] + "/" + rest
  }

  /** A string without slashes splits into itself alone. */
  lemma {:induction false} SplitNoSlash(s: string)
    ensures '/' !in s ==> Split(s) == [s]
  {
    if s != [] && '/' !in s {
      SplitNoSlash(s[1..]);
      assert s == [s[0]] + s[1..];
    }
  }

  /** A leading segment without slashes splits off as the first piece. */
  lemma {:induction false} SplitAppend(a: string, b: string)
    ensures '/' !in a ==> Split(a + "/" + b) == [a] + Split(b)
  {
    if '/' !in a {
      var s := a + "/" + b;
      if a == [] {
        assert s == "/" + b && s[1..] == b;
      } else {
        assert s[0] == a[0] && s[1..] == a[1..] + "/" + b;
        SplitAppend(a[1..], b);
        assert a == [a[0]] + a[1..];
      }
    }
  }

  /** Splitting and joining again gives back the path. */
  lemma {:induction false} JoinSplit(s: string)
    ensures Join(Split(s)) == s
  {
    if s != [] {
      JoinSplit(s[1..]);
      var rest := Split(s[1..]);
      assert s == [s[0]] + s[1..];
      if s[0] == '/' {
        assert ([[]] + rest)[1..] == rest;
      } else {
        var parts := [[s[0]] + rest[0]] + rest[1..];
        if |rest| > 1 {
          assert parts[1..] == rest[1..];
          assert Join(rest) == rest[0] + "/" + Join(rest[1..]);
        }
      }
    }
  }

  /** A path splits into a single piece exactly when it holds no slash. */
  lemma {:induction false} SplitSingle(s: string)
    ensures |Split(s)| == 1 <==> '/' !in s
  {
    if s != [] {
      SplitSingle(s[1..]);
      assert s == [s[0]] + s[1..];
    }
  }

  /** Joining all pieces is joining all but the last, a slash, and the last. */
  lemma {:induction false} JoinLast(parts: seq<string>)
    requires |parts| >= 2
    ensures Join(parts) == Join(parts[..|parts| - 1]) + "/" + parts[|parts| - 1]
    decreases |parts|
  {
    if |parts| > 2 {
      JoinLast(parts[1..]);
      assert parts[1..][..|parts| - 2] == parts[..|parts| - 1][1..];
    }
  }

  /** The last `/`-separated segment: `path.split('/').pop()`. */
  function BaseName(p: string): (name: string)
    ensures '/' !in name
    ensures '/' !in p ==> name == p
  {
    SplitSingle(p);
    JoinSplit(p);
    var parts := Split(p);
    parts[|parts| - 1]
  }

  /** The segments before the last one, joined by `/`. */
  function DirName(p: string): (dir: string)
    requires '/' in p
    ensures p == dir + "/" + BaseName(p)
  {
    SplitSingle(p);
    JoinSplit(p);
    var parts := Split(p);
    JoinLast(parts);
    Join(parts[..|parts| - 1])
  }

  /** A path splits at its last slash only: any `d + "/" + b` with no slash
      in `b` is the path's DirName and BaseName. */
  lemma LastSlashUnique(p: string, d: string, b: string)
    requires p == d + "/" + b && '/' !in b
    ensures '/' in p && DirName(p) == d && BaseName(p) == b
  {
    assert p[|d|] == '/';
    assert '/' in p;
    var d', b' := DirName(p), BaseName(p);
    assert p == d' + "/" + b';
    assert p[|d'|] == '/';
    assert |d| == |d'|;
    assert d == p[..|d|] && d' == p[..|d'|];
    assert b == p[|d| + 1..] && b' == p[|d'| + 1..];
  }

  /** The number of UTF-16 code units a character takes. */
  function CodeUnits(c: char): nat {
    if c as int >= 0x1_0000 then 2 else 1
  }

  /** `s.length` in JavaScript: UTF-16 code units, not characters. */
  function Utf16Length(s: string): (n: nat)
    ensures |s| <= n <= 2 * |s|
  {
    if s == [] then 0 else CodeUnits(s[0]) + Utf16Length(s[1..])
  }

  lemma {:induction false} Utf16LengthAppend(a: string, b: string)
    ensures Utf16Length(a + b) == Utf16Length(a) + Utf16Length(b)
  {
    if a == [] {
      assert a + b == b;
    } else {
      assert (a + b)[0] == a[0];
      assert (a + b)[1..] == a[1..] + b;
      Utf16LengthAppend(a[1..], b);
    }
  }

  /** `a` names a proper ancestor directory of `p`: `p` starts with `a + "/"`. */
  predicate IsAncestor(a: string, p: string) {
    |a| < |p| && p[..|a| + 1] == a + "/"
  }

  /** A proper ancestor's path is strictly shorter, also in UTF-16 units. */
  lemma AncestorShorter(a: string, p: string)
    requires IsAncestor(a, p)
    ensures Utf16Length(a) < Utf16Length(p)
  {
    assert p == (a + "/") + p[|a| + 1..];
    Utf16LengthAppend(a + "/", p[|a| + 1..]);
    Utf16LengthAppend(a, "/");
  }

  /** The parent path of a nested path is a proper ancestor of it. */
  lemma DirNameIsAncestor(p: string)
    requires '/' in p
    ensures IsAncestor(DirName(p), p)
    ensures Utf16Length(DirName(p)) < Utf16Length(p)
  {
    var d := DirName(p);
    assert p == (d + "/") + BaseName(p);
    assert p[..|d| + 1] == d + "/";
    AncestorShorter(d, p);
  }
}

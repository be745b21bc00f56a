/** The few JavaScript string built-ins that the two routes rely on:
    `includes`, `toLowerCase`, `Array.prototype.join` and Node's POSIX `path.extname`. */
module JsStrings {

  /** `s.includes(needle)`: some position of `s` starts with `needle`. */
  predicate Includes(s: string, needle: string)
    decreases |s|
  {
    needle <= s || (|s| > 0 && Includes(s[1..], needle))
  }

  lemma IncludesPrefix(a: string, b: string)
    ensures Includes(a + b, a)
  {
    assert a <= a + b;
  }

  /** `s.includes(needle)` holds exactly when `needle` occurs at some position of `s`. */
  lemma IncludesIff(s: string, needle: string)
    ensures Includes(s, needle) <==> exists i :: 0 <= i <= |s| && needle <= s[i..]
  {
    if Includes(s, needle) {
      var i := IncludesAt(s, needle);
    }
    if exists i :: 0 <= i <= |s| && needle <= s[i..] {
      var i :| 0 <= i <= |s| && needle <= s[i..];
      IncludesFrom(s, needle, i);
    }
  }

  /** A text that lacks some character of `needle` does not include it. */
  lemma MissingCharNotIncluded(s: string, needle: string, c: char)
    requires c in needle && c !in s
    ensures !Includes(s, needle)
  {
    if Includes(s, needle) {
      var i := IncludesAt(s, needle);
    }
  }

  /** A position at which `needle` occurs, when `s.includes(needle)`. */
  lemma {:induction false} IncludesAt(s: string, needle: string) returns (i: nat)
    requires Includes(s, needle)
    ensures i <= |s| && needle <= s[i..]
    decreases |s|
  {
    if needle <= s {
      i := 0;
    } else {
      var j := IncludesAt(s[1..], needle);
      assert s[1..][j..] == s[j + 1..];
      i := j + 1;
    }
  }

  lemma {:induction false} IncludesFrom(s: string, needle: string, i: nat)
    requires i <= |s| && needle <= s[i..]
    ensures Includes(s, needle)
    decreases i
  {
    if i > 0 {
      assert s[1..][i - 1..] == s[i..];
      IncludesFrom(s[1..], needle, i - 1);
    }
  }

  /** The lower case of one character as far as the model needs it: A-Z map to a-z, every other
      character is left alone. */
  function LowerChar(c: char): char
  {
    if 'A' <= c <= 'Z' then (c as int + 32) as char else c
  }

  /** `s.toLowerCase()`, restricted to ASCII letters (see LowerChar). */
  function ToLower(s: string): (r: string)
    ensures |r| == |s|
  {
    seq(|s|, i requires 0 <= i < |s| => LowerChar(s[i]))
  }

  /** Lower-casing twice changes nothing more than lower-casing once. */
  lemma ToLowerIdempotent(s: string)
    ensures ToLower(ToLower(s)) == ToLower(s)
  {
    assert forall i :: 0 <= i < |s| ==> ToLower(ToLower(s))[i] == ToLower(s)[i];
  }

  /** A string with no upper-case ASCII letter is its own lower case. */
  lemma ToLowerOfLower(s: string)
    requires forall i :: 0 <= i < |s| ==> !('A' <= s[i] <= 'Z')
    ensures ToLower(s) == s
  {
  }

  /** Lower-casing passes over a leading '.'. */
  lemma ToLowerDotPrefix(x: string)
    ensures ToLower("." + x) == "." + ToLower(x)
  {
    var l, r := ToLower("." + x), "." + ToLower(x);
    assert |l| == |r|;
    forall i | 0 <= i < |l| ensures l[i] == r[i] {
      if i > 0 { assert ("." + x)[i] == x[i - 1]; }
    }
  }

  /** `xs.join(sep)`. */
  function Join(xs: seq<string>, sep: string): (r: string)
    ensures xs == [] ==> r == ""
    ensures |xs| == 1 ==> r == xs[0]
    ensures |xs| >= 1 ==> xs[0] <= r
  {
    if xs == [] then ""
    else if |xs| == 1 then xs[0]
    else xs[0] + sep + Join(xs[1..], sep)
  }

  /** Text put in front keeps every occurrence: what `s` includes, `p + s` includes. */
  lemma IncludesAfterPrefix(p: string, s: string, needle: string)
    requires Includes(s, needle)
    ensures Includes(p + s, needle)
  {
    var i := IncludesAt(s, needle);
    assert (p + s)[|p| + i..] == s[i..];
    IncludesFrom(p + s, needle, |p| + i);
  }

  /** Every item occurs in the joined text, whatever the separator. */
  lemma {:induction false} JoinIncludes(xs: seq<string>, sep: string)
    ensures forall i :: 0 <= i < |xs| ==> Includes(Join(xs, sep), xs[i])
    decreases |xs|
  {
    if |xs| >= 2 {
      JoinIncludes(xs[1..], sep);
      forall i | 0 <= i < |xs| ensures Includes(Join(xs, sep), xs[i]) {
        if i > 0 {
          assert xs[1..][i - 1] == xs[i];
          IncludesAfterPrefix(xs[0] + sep, Join(xs[1..], sep), xs[i]);
        }
      }
    }
  }

  /** The part of `s` after its last '/' (all of `s` when there is none). */
  function AfterLastSlash(s: string): (r: string)
    ensures '/' !in r
    ensures |r| <= |s| && r == s[|s| - |r|..]
    decreases |s|
  {
    if s == [] then []
    else if s[|s| - 1] == '/' then []
    else AfterLastSlash(s[..|s| - 1]) + [s[|s| - 1]]
  }

  /** `s` without its trailing '/' characters. */
  function TrimTrailingSlashes(s: string): (r: string)
    ensures r <= s
    ensures r == [] || r[|r| - 1] != '/'
    decreases |s|
  {
    if s != [] && s[|s| - 1] == '/' then TrimTrailingSlashes(s[..|s| - 1]) else s
  }

  /** The last path segment, as Node's POSIX `path.extname` reads it: trailing slashes do not count. */
  function BaseName(p: string): (b: string)
    ensures '/' !in b
  {
    AfterLastSlash(TrimTrailingSlashes(p))
  }

  /** The index of the last '.' in `b`, if any. */
  function LastDot(b: string): (k: int)
    ensures -1 <= k < |b|
    ensures k >= 0 ==> b[k] == '.'
    ensures forall j :: k < j < |b| ==> b[j] != '.'
    decreases |b|
  {
    if b == [] then -1
    else if b[|b| - 1] == '.' then |b| - 1
    else LastDot(b[..|b| - 1])
  }

  /** Node's POSIX `path.extname(p)`: the suffix of the last segment from its last '.', or "" when
      the segment has no '.', when its only dot-start is its first character, or when it is "..". */
  function ExtName(p: string): (e: string)
    ensures e == "" || (e[0] == '.' && '.' !in e[1..] && '/' !in e)
  {
    var b := BaseName(p);
    var k := LastDot(b);
    if k <= 0 || b == ".." then ""
    else b[k..]
  }

  /** A non-empty base name followed by an extension "." + x, where x is non-empty and has neither
      '.' nor '/', has exactly that extension: the file name "clip.MP4" has extension ".MP4". */
  lemma ExtNameOfSuffix(name: string, x: string)
    requires name != [] && '/' !in name
    requires x != [] && '.' !in x && '/' !in x
    ensures ExtName(name + "." + x) == "." + x
  {
    var a := name + ".";
    var p := a + x;
    assert '/' !in p && p[|p| - 1] == x[|x| - 1] by {
      assert p == name + ("." + x);
    }
    PlainBaseName(p);
    LastDotOfSuffix(a, x);
    assert p[|a| - 1..] == "." + x;
  }

  /** A path with no '/' is its own last segment. */
  lemma PlainBaseName(p: string)
    requires '/' !in p
    ensures BaseName(p) == p
  {
    assert p == [] || p[|p| - 1] != '/';
    assert TrimTrailingSlashes(p) == p;
    NoSlashBase(p);
  }

  lemma {:induction false} NoSlashBase(s: string)
    requires '/' !in s
    ensures AfterLastSlash(s) == s
    decreases |s|
  {
    if s != [] {
      var t, c := s[..|s| - 1], s[|s| - 1];
      assert s == t + [c];
      assert c != '/';
      NoSlashBase(t);
    }
  }

  lemma {:induction false} LastDotOfSuffix(a: string, x: string)
    requires a != [] && a[|a| - 1] == '.'
    requires '.' !in x
    ensures LastDot(a + x) == |a| - 1
    decreases |x|
  {
    if x == [] {
      assert a + x == a;
    } else {
      var p := a + x;
      assert p[|p| - 1] == x[|x| - 1];
      assert p[..|p| - 1] == a + x[..|x| - 1];
      LastDotOfSuffix(a, x[..|x| - 1]);
    }
  }

  /** A segment whose only '.' is its first character (".bashrc"), or one with no '.' at all,
      has no extension. */
  lemma NoExtWithoutInnerDot(p: string)
    requires p != [] && '/' !in p
    requires forall j :: 0 < j < |p| ==> p[j] != '.'
    ensures ExtName(p) == ""
  {
    PlainBaseName(p);
  }
}

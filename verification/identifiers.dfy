/**
 * The identifier resolver and the text helpers every other component uses:
 * the idiom `s.split('#').pop() || s.split('/').pop()` that turns a resource
 * reference into a local name, and JavaScript's `String.prototype.trim`.
 */
module Identifiers {
  import opened Optional

  /** `s.split(c).pop()`: the text after the last `c`, or all of `s` when it has no `c`. */
  function AfterLast(s: string, c: char): string
    decreases |s|
  {
    if s == [] then []
    else if s[|s| - 1] == c then []
    else AfterLast(s[..|s| - 1], c) + [s[|s| - 1]]
  }

  /**
   * `split(c).pop()` yields the longest suffix of `s` without `c`: the whole
   * string when `c` does not occur, and otherwise what follows the last `c`.
   */
  lemma {:induction false} AfterLastSpec(s: string, c: char)
    ensures var r := AfterLast(s, c);
            c !in r && |r| <= |s| && r == s[|s| - |r|..] &&
            (c in s ==> |r| < |s| && s[|s| - |r| - 1] == c) &&
            (c !in s ==> r == s)
    decreases |s|
  {
    if s != [] && s[|s| - 1] != c {
      var init := s[..|s| - 1];
      AfterLastSpec(init, c);
      assert s == init + [s[|s| - 1]];
      if c in s {
        var k :| 0 <= k < |s| && s[k] == c;
        assert init[k] == c;
      }
    }
  }

  /**
   * The resolver `s.split('#').pop() || s.split('/').pop()`: the text after the
   * last '#' when that text is not empty, otherwise the text after the last '/'.
   */
  function LocalName(s: string): string {
    var afterHash := AfterLast(s, '#');
    if afterHash != [] then afterHash else AfterLast(s, '/')
  }

  /**
   * What the resolver returns, case by case: a string without '#' unchanged;
   * the non-empty text after the last '#'; and when that text is empty (the
   * string ends in '#'), the longest suffix without '/' (the whole string if
   * there is no '/').
   */
  lemma LocalNameSpec(s: string)
    ensures var r := LocalName(s);
            ('#' !in s ==> r == s) &&
            ('#' in s && s[|s| - 1] != '#' ==>
               |r| < |s| && r != [] && '#' !in r && s == s[..|s| - |r| - 1] + ['#'] + r) &&
            ('#' in s && s[|s| - 1] == '#' ==>
               |r| <= |s| && '/' !in r && r == s[|s| - |r|..] && ('/' !in s ==> r == s) &&
               ('/' in s ==> |r| < |s| && s[|s| - |r| - 1] == '/'))
  {
    AfterLastSpec(s, '#');
    AfterLastSpec(s, '/');
    var h := AfterLast(s, '#');
    if '#' in s && s[|s| - 1] != '#' {
      assert h != [] by {
        assert s[|s| - |h| - 1] == '#';
      }
      assert s == s[..|s| - |h| - 1] + ['#'] + h;
    }
    if s != [] && s[|s| - 1] == '#' {
      assert h == [];
    }
  }

  /** Only the empty string has an empty local name. */
  lemma LocalNameEmpty(s: string)
    ensures LocalName(s) == [] <==> s == []
  {
    AfterLastSpec(s, '#');
    AfterLastSpec(s, '/');
    if s != [] && '#' in s && s[|s| - 1] == '#' && '/' in s {
      var r := AfterLast(s, '/');
      assert s[|s| - |r| - 1] == '/';
      assert s[|s| - 1] != '/';
    }
  }

  /** A local name `x` with no '#' in it survives being written after a '#'. */
  lemma LocalNameAfterHash(p: string, x: string)
    requires x != [] && '#' !in x
    ensures LocalName(p + "#" + x) == x
  {
    var s := p + "#" + x;
    assert s[|p|] == '#';
    var r := AfterLast(s, '#');
    AfterLastSpec(s, '#');
    assert forall k :: |p| < k < |s| ==> s[k] == x[k - |p| - 1];
    assert s[|s| - |r| - 1] == '#';
    assert |s| - |r| - 1 == |p|;
    assert r == s[|p| + 1..] == x;
  }

  /** The resolver on the two reference forms, as the code behaves. */
  lemma LocalNameExamples()
    ensures LocalName("http://x/y#Foo") == "Foo"
    ensures LocalName("http://x/y/Foo") == "http://x/y/Foo"
  {
    var plain := "http://x/y/Foo";
    assert forall k :: 0 <= k < |plain| ==> plain[k] != '#';
    AfterLastSpec(plain, '#');
    LocalNameAfterHash("http://x/y", "Foo");
    assert "http://x/y" + "#" + "Foo" == "http://x/y#Foo";
  }

  /** An attribute value counts only when present and non-empty (JavaScript truthiness). */
  predicate Truthy(o: Option<string>) {
    o.Some? && o.value != []
  }

  /** The characters `String.prototype.trim` removes: ECMAScript WhiteSpace and LineTerminator. */
  predicate IsSpace(c: char) {
    c == '\t' || c == '\n' || c == '\U{B}' || c == '\U{C}' || c == '\r' || c == ' ' ||
    c == '\U{A0}' || c == '\U{1680}' || ('\U{2000}' <= c <= '\U{200A}') ||
    c == '\U{2028}' || c == '\U{2029}' || c == '\U{202F}' || c == '\U{205F}' ||
    c == '\U{3000}' || c == '\U{FEFF}'
  }

  function TrimStart(s: string): string {
    if s != [] && IsSpace(s[0]) then TrimStart(s[1..]) else s
  }

  function TrimEnd(s: string): string {
    if s != [] && IsSpace(s[|s| - 1]) then TrimEnd(s[..|s| - 1]) else s
  }

  /** `s.trim()`: `s` without its leading and trailing white space. */
  function Trim(s: string): string {
    TrimEnd(TrimStart(s))
  }

  lemma {:induction false} TrimStartSpec(s: string)
    ensures var r := TrimStart(s);
            |r| <= |s| && r == s[|s| - |r|..] && (r != [] ==> !IsSpace(r[0])) &&
            forall k :: 0 <= k < |s| - |r| ==> IsSpace(s[k])
  {
    if s != [] && IsSpace(s[0]) {
      var t := s[1..];
      TrimStartSpec(t);
      var r := TrimStart(t);
      assert r == t[|t| - |r|..] == s[|s| - |r|..];
      forall k | 0 <= k < |s| - |r| ensures IsSpace(s[k]) {
        if k > 0 {
          assert s[k] == t[k - 1];
        }
      }
    }
  }

  lemma {:induction false} TrimEndSpec(s: string)
    ensures var r := TrimEnd(s);
            |r| <= |s| && r == s[..|r|] && (r != [] ==> !IsSpace(r[|r| - 1])) &&
            forall k :: |r| <= k < |s| ==> IsSpace(s[k])
  {
    if s != [] && IsSpace(s[|s| - 1]) {
      var t := s[..|s| - 1];
      TrimEndSpec(t);
      var r := TrimEnd(t);
      assert r == t[..|r|] == s[..|r|];
      forall k | |r| <= k < |s| ensures IsSpace(s[k]) {
        if k < |s| - 1 {
          assert s[k] == t[k];
        }
      }
    }
  }

  /**
   * What `trim` leaves: a slice `s[i..i + |r|]` of the text that starts and
   * ends with a non-space, everything cut off on either side being white space.
   */
  lemma TrimSpec(s: string)
    ensures var r := Trim(s);
            var i := |s| - |TrimStart(s)|;
            0 <= i && i + |r| <= |s| && r == s[i..i + |r|] &&
            (r != [] ==> !IsSpace(r[0]) && !IsSpace(r[|r| - 1])) &&
            (forall k :: 0 <= k < i ==> IsSpace(s[k])) &&
            (forall k :: i + |r| <= k < |s| ==> IsSpace(s[k]))
  {
    var t := TrimStart(s);
    TrimStartSpec(s);
    TrimEndSpec(t);
    var r := TrimEnd(t);
    var i := |s| - |t|;
    assert r == t[..|r|] == s[i..i + |r|];
    if r != [] {
      assert r[0] == t[0] by { assert t[..|r|][0] == t[0]; }
      assert !IsSpace(t[0]);
    }
    forall k | i + |r| <= k < |s| ensures IsSpace(s[k]) {
      assert s[k] == t[k - i];
    }
  }

  /** A text is blank after trimming exactly when it is all white space. */
  lemma TrimBlank(s: string)
    ensures Trim(s) == [] <==> forall k :: 0 <= k < |s| ==> IsSpace(s[k])
  {
    if forall k :: 0 <= k < |s| ==> IsSpace(s[k]) {
      TrimStartAllSpace(s);
    } else {
      TrimSpec(s);
    }
  }

  lemma {:induction false} TrimStartAllSpace(s: string)
    requires forall k :: 0 <= k < |s| ==> IsSpace(s[k])
    ensures TrimStart(s) == []
  {
    if s != [] {
      TrimStartAllSpace(s[1..]);
    }
  }
}

/** The string operations the handler relies on: the blank test on the query
    value and splitting a URI on a separator to take its last piece. */
module Text {
  import opened Options

  /** The characters .NET treats as white space: U+0009 to U+000D, U+0085 and the
      members of the Unicode categories Zs, Zl and Zp. */
  predicate IsWhiteSpace(c: char)
    ensures IsWhiteSpace(c) <==> c in WhiteSpaceTable
  {
    || ('\t' <= c <= '\r')
    || c == ' '
    || c == '\U{0085}'
    || c == '\U{00A0}'
    || c == '\U{1680}'
    || ('\U{2000}' <= c <= '\U{200A}')
    || c == '\U{2028}'
    || c == '\U{2029}'
    || c == '\U{202F}'
    || c == '\U{205F}'
    || c == '\U{3000}'
  }

  /** The same 25 characters listed one by one. */
  const WhiteSpaceTable: set<char> :=
    {'\t', '\n', '\U{000B}', '\U{000C}', '\r', ' ', '\U{0085}', '\U{00A0}', '\U{1680}',
     '\U{2000}', '\U{2001}', '\U{2002}', '\U{2003}', '\U{2004}', '\U{2005}', '\U{2006}',
     '\U{2007}', '\U{2008}', '\U{2009}', '\U{200A}', '\U{2028}', '\U{2029}', '\U{202F}',
     '\U{205F}', '\U{3000}'}

  /** Whether every character of `s` is white space (vacuously so for ""). */
  function AllWhiteSpace(s: string): (r: bool)
    ensures r <==> forall i :: 0 <= i < |s| ==> IsWhiteSpace(s[i])
  {
    if s == [] then true else IsWhiteSpace(s[0]) && AllWhiteSpace(s[1..])
  }

  /** `string.IsNullOrWhiteSpace`: absent, empty, or made of white space only. */
  function IsNullOrWhiteSpace(s: Option<string>): (r: bool)
    ensures r <==> s.None? || forall i :: 0 <= i < |s.value| ==> IsWhiteSpace(s.value[i])
    ensures s == Some("") ==> r
    ensures s.Some? && |s.value| > 0 && !IsWhiteSpace(s.value[0]) ==> !r
  {
    match s
    case None => true
    case Some(v) => AllWhiteSpace(v)
  }

  /** The number of occurrences of `c` in `s`. */
  function Count(s: string, c: char): nat
  {
    if s == [] then 0 else Count(s[..|s| - 1], c) + (if s[|s| - 1] == c then 1 else 0)
  }

  /** `s.Split(sep)`: the pieces between separators, empty pieces kept, so one
      piece more than there are separators. */
  function Split(s: string, sep: char): (parts: seq<string>)
    ensures |parts| == Count(s, sep) + 1
    ensures forall k :: 0 <= k < |parts| ==> sep !in parts[k]
  {
    if s == [] then [[]]
    else
      var init := Split(s[..|s| - 1], sep);
      var c := s[|s| - 1];
      if c == sep then init + [[]]
      else init[..|init| - 1] + [init[|init| - 1] + [c]]
  }

  /** The pieces glued back together with `sep` between them. */
  function Join(parts: seq<string>, sep: char): string
    requires |parts| >= 1
  {
    if |parts| == 1 then parts[0]
    else Join(parts[..|parts| - 1], sep) + [sep] + parts[|parts| - 1]
  }

  /** Enumerable `Last()` on a non-empty sequence: the element everything
      else precedes. */
  function Last<T>(xs: seq<T>): (r: T)
    requires |xs| >= 1
    ensures r in xs
    ensures xs == xs[..|xs| - 1] + [r]
  {
    xs[|xs| - 1]
  }

  /** Reference definition: the text after the last `sep` of `s`, all of `s` if
      it has none. */
  function AfterLast(s: string, sep: char): string
  {
    if s == [] then []
    else if s[|s| - 1] == sep then []
    else AfterLast(s[..|s| - 1], sep) + [s[|s| - 1]]
  }

  /** Splitting loses nothing: joining the pieces gives back the string. */
  lemma {:induction false} JoinSplit(s: string, sep: char)
    ensures Join(Split(s, sep), sep) == s
  {
    if s != [] {
      var t := s[..|s| - 1];
      var c := s[|s| - 1];
      var init := Split(t, sep);
      JoinSplit(t, sep);
      assert s == t + [c];
      if c == sep {
        var parts := init + [[]];
        assert parts[..|parts| - 1] == init;
      } else {
        var k := |init|;
        var parts := init[..k - 1] + [init[k - 1] + [c]];
        if k == 1 {
          assert Join(parts, sep) == init[0] + [c];
        } else {
          assert parts[..k - 1] == init[..k - 1];
          assert init[..k - 1][..k - 2] == init[..k - 2];
          assert Join(init, sep) == Join(init[..k - 1], sep) + [sep] + init[k - 1];
        }
      }
    }
  }

  /** The last piece of the split is the text after the last separator. */
  lemma {:induction false} LastOfSplit(s: string, sep: char)
    ensures Last(Split(s, sep)) == AfterLast(s, sep)
  {
    if s != [] {
      LastOfSplit(s[..|s| - 1], sep);
    }
  }

  /** `AfterLast` is a suffix of `s`. */
  lemma {:induction false} AfterLastSuffix(s: string, sep: char)
    ensures |AfterLast(s, sep)| <= |s|
    ensures s[|s| - |AfterLast(s, sep)|..] == AfterLast(s, sep)
  {
    if s != [] && s[|s| - 1] != sep {
      var t := s[..|s| - 1];
      AfterLastSuffix(t, sep);
      var m := AfterLast(t, sep);
      assert s[|s| - |m| - 1..] == t[|t| - |m|..] + [s[|s| - 1]];
    }
  }

  /** `AfterLast` holds no separator. */
  lemma {:induction false} AfterLastHasNoSeparator(s: string, sep: char)
    ensures sep !in AfterLast(s, sep)
  {
    if s != [] && s[|s| - 1] != sep {
      AfterLastHasNoSeparator(s[..|s| - 1], sep);
    }
  }

  /** What precedes `AfterLast` is empty or ends in a separator. */
  lemma {:induction false} AfterLastFollowsSeparator(s: string, sep: char)
    ensures |AfterLast(s, sep)| < |s| ==> s[|s| - |AfterLast(s, sep)| - 1] == sep
  {
    if s != [] && s[|s| - 1] != sep {
      var t := s[..|s| - 1];
      AfterLastFollowsSeparator(t, sep);
      assert |AfterLast(s, sep)| == |AfterLast(t, sep)| + 1;
    }
  }

  /** `AfterLast` is a separator-free suffix of `s`, preceded by nothing or by a
      separator. */
  lemma AfterLastIsSuffix(s: string, sep: char)
    ensures |AfterLast(s, sep)| <= |s|
    ensures s[|s| - |AfterLast(s, sep)|..] == AfterLast(s, sep)
    ensures sep !in AfterLast(s, sep)
    ensures |AfterLast(s, sep)| < |s| ==> s[|s| - |AfterLast(s, sep)| - 1] == sep
  {
    AfterLastSuffix(s, sep);
    AfterLastHasNoSeparator(s, sep);
    AfterLastFollowsSeparator(s, sep);
  }

  /** Any way of writing `s` as a prefix that is empty or ends in `sep`, followed
      by a separator-free suffix, has `AfterLast(s, sep)` as that suffix. */
  lemma AfterLastUnique(s: string, sep: char, prefix: string, name: string)
    requires s == prefix + name
    requires sep !in name
    requires prefix == [] || prefix[|prefix| - 1] == sep
    ensures name == AfterLast(s, sep)
  {
    AfterLastIsSuffix(s, sep);
    var n := AfterLast(s, sep);
    var a := |s| - |n|;
    assert s[|prefix|..] == name;
    // no separator at or after the start of either suffix ...
    forall i | a <= i < |s| ensures s[i] != sep {
      assert s[i] == n[i - a];
    }
    forall i | |prefix| <= i < |s| ensures s[i] != sep {
      assert s[i] == name[i - |prefix|];
    }
    // ... while a separator sits just before each of them, so they start together
    if prefix != [] {
      assert s[|prefix| - 1] == sep;
    }
    assert a == |prefix|;
  }
}

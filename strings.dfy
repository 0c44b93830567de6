/** The PHP string functions the core relies on, as they behave on byte strings:
    `explode`, `str_replace`, `trim`/`rtrim` with one character, `strtr` with two
    equal-length character lists, integer-to-string conversion and the extension
    part of `pathinfo`. */
module Strings {
  import opened Common

  /** Number of occurrences of `c` in `s`. */
  function Count(s: string, c: char): nat {
    if |s| == 0 then 0 else (if s[0] == c then 1 else 0) + Count(s[1..], c)
  }

  /** `implode(sep, parts)`. */
  function Join(parts: seq<string>, sep: char): string
    requires |parts| >= 1
  {
    if |parts| == 1 then parts[0] else parts[0] + [sep] + Join(parts[1..], sep)
  }

  /** A character that is neither the separator nor in any piece is not in the joined text. */
  lemma {:induction false} JoinAvoids(parts: seq<string>, sep: char, c: char)
    requires |parts| >= 1 && c != sep
    requires forall k :: 0 <= k < |parts| ==> c !in parts[k]
    ensures c !in Join(parts, sep)
  {
    if |parts| > 1 {
      JoinAvoids(parts[1..], sep, c);
    }
  }

  /** `explode(sep, s)`: the pieces between separators, empty pieces included. */
  function Split(s: string, sep: char): (parts: seq<string>)
    ensures |parts| == Count(s, sep) + 1
    ensures forall k :: 0 <= k < |parts| ==> sep !in parts[k]
    ensures Join(parts, sep) == s
  {
    if |s| == 0 then [""]
    else
      var rest := Split(s[1..], sep);
      if s[0] == sep then
        assert s == [sep] + s[1..];
        [""] + rest
      else
        assert s == [s[0]] + s[1..];
        [[s[0]] + rest[0]] + rest[1..]
  }

  lemma {:induction false} SplitNoSeparator(a: string, sep: char)
    requires sep !in a
    ensures Split(a, sep) == [a]
  {
    if |a| > 0 {
      SplitNoSeparator(a[1..], sep);
      assert [a[0]] + a[1..] == a;
    }
  }

  /** A separator-free first piece is split off exactly. */
  lemma {:induction false} SplitFirst(a: string, sep: char, b: string)
    requires sep !in a
    ensures Split(a + [sep] + b, sep) == [a] + Split(b, sep)
  {
    var s := a + [sep] + b;
    if |a| == 0 {
      assert s[1..] == b;
    } else {
      assert s[1..] == a[1..] + [sep] + b;
      SplitFirst(a[1..], sep, b);
      assert [a[0]] + a[1..] == a;
    }
  }

  /** `explode` undoes `implode` when no piece holds the separator. */
  lemma {:induction false} SplitJoin(parts: seq<string>, sep: char)
    requires |parts| >= 1
    requires forall k :: 0 <= k < |parts| ==> sep !in parts[k]
    ensures Split(Join(parts, sep), sep) == parts
  {
    if |parts| == 1 {
      SplitNoSeparator(parts[0], sep);
    } else {
      SplitJoin(parts[1..], sep);
      SplitFirst(parts[0], sep, Join(parts[1..], sep));
      assert [parts[0]] + parts[1..] == parts;
    }
  }

  /** The joined text ends with the last character of the last piece. */
  lemma {:induction false} JoinLast(parts: seq<string>, sep: char)
    requires |parts| >= 1 && |parts[|parts| - 1]| > 0
    ensures |Join(parts, sep)| > 0
    ensures Join(parts, sep)[|Join(parts, sep)| - 1] == parts[|parts| - 1][|parts[|parts| - 1]| - 1]
  {
    if |parts| > 1 {
      JoinLast(parts[1..], sep);
    }
  }

  /** `explode('.', a . '.' . b . '.' . c)` gives back `[a, b, c]` when none holds a dot. */
  lemma SplitThree(a: string, b: string, c: string, sep: char)
    requires sep !in a && sep !in b && sep !in c
    ensures Split(a + [sep] + b + [sep] + c, sep) == [a, b, c]
  {
    assert a + [sep] + b + [sep] + c == a + [sep] + (b + [sep] + c);
    SplitFirst(a, sep, b + [sep] + c);
    SplitFirst(b, sep, c);
    SplitNoSeparator(c, sep);
  }

  /** `str_replace(pat, rep, s)`: scans left to right and replaces every
      non-overlapping occurrence; an empty `pat` leaves `s` unchanged. */
  function ReplaceAll(s: string, pat: string, rep: string): string
  {
    if |pat| == 0 || |s| < |pat| then s
    else if s[..|pat|] == pat then rep + ReplaceAll(s[|pat|..], pat, rep)
    else [s[0]] + ReplaceAll(s[1..], pat, rep)
  }

  /** A string that lacks one of the pattern's characters has no occurrence to replace. */
  lemma {:induction false} ReplaceAllAbsent(s: string, pat: string, rep: string, c: char)
    requires c in pat && c !in s
    ensures ReplaceAll(s, pat, rep) == s
  {
    if |s| >= |pat| {
      assert s[..|pat|] != pat by {
        var k :| 0 <= k < |pat| && pat[k] == c;
        assert s[..|pat|][k] != c;
      }
      ReplaceAllAbsent(s[1..], pat, rep, c);
      assert [s[0]] + s[1..] == s;
    }
  }

  /** A leading occurrence is replaced and scanning resumes right after it. */
  lemma ReplaceAllLeading(pat: string, t: string, rep: string)
    requires |pat| > 0
    ensures ReplaceAll(pat + t, pat, rep) == rep + ReplaceAll(t, pat, rep)
  {
    var s := pat + t;
    assert s[..|pat|] == pat;
    assert s[|pat|..] == t;
  }

  /** Text in front that holds no first character of the pattern is copied unchanged. */
  lemma {:induction false} ReplaceAllSkip(a: string, t: string, pat: string, rep: string)
    requires |pat| > 0 && pat[0] !in a
    ensures ReplaceAll(a + t, pat, rep) == a + ReplaceAll(t, pat, rep)
  {
    if |a| > 0 {
      var s := a + t;
      assert s[1..] == a[1..] + t;
      if |s| >= |pat| {
        assert s[..|pat|][0] == a[0];
      }
      ReplaceAllSkip(a[1..], t, pat, rep);
      assert [a[0]] + a[1..] == a;
    } else {
      assert a + t == t;
    }
  }

  /** `ltrim(s, c)`. */
  function TrimLeft(s: string, c: char): (r: string)
    ensures |r| <= |s| && r == s[|s| - |r|..]
    ensures forall k :: 0 <= k < |s| - |r| ==> s[k] == c
    ensures |r| == 0 || r[0] != c
  {
    if |s| > 0 && s[0] == c then TrimLeft(s[1..], c) else s
  }

  /** `rtrim(s, c)`: `s` without its trailing run of `c`. */
  function TrimRight(s: string, c: char): (r: string)
    ensures |r| <= |s| && r == s[..|r|]
    ensures forall k :: |r| <= k < |s| ==> s[k] == c
    ensures |r| == 0 || r[|r| - 1] != c
  {
    if |s| > 0 && s[|s| - 1] == c then TrimRight(s[..|s| - 1], c) else s
  }

  /** `trim(s, c)`. */
  function Trim(s: string, c: char): string {
    TrimRight(TrimLeft(s, c), c)
  }

  /** Appending a run of `c` after a string that does not end in `c` is undone by `rtrim`. */
  lemma {:induction false} TrimRightPadding(a: string, pad: string, c: char)
    requires |a| == 0 || a[|a| - 1] != c
    requires forall k :: 0 <= k < |pad| ==> pad[k] == c
    ensures TrimRight(a + pad, c) == a
  {
    if |pad| > 0 {
      assert (a + pad)[..|a + pad| - 1] == a + pad[..|pad| - 1];
      TrimRightPadding(a, pad[..|pad| - 1], c);
    } else {
      assert a + pad == a;
    }
  }

  /** `strtr` with two equal-length character lists, for one character. */
  function TranslateChar(c: char, from: string, to: string): (d: char)
    requires |from| == |to|
    ensures c !in from ==> d == c
    ensures c in from ==> d in to
  {
    if |from| == 0 then c
    else if c == from[0] then to[0]
    else TranslateChar(c, from[1..], to[1..])
  }

  /** `strtr(s, from, to)` with `|from| == |to|`: a character-by-character map. */
  function Translate(s: string, from: string, to: string): (r: string)
    requires |from| == |to|
    ensures |r| == |s|
  {
    seq(|s|, i requires 0 <= i < |s| => TranslateChar(s[i], from, to))
  }

  function DigitChar(d: int): (c: char)
    requires 0 <= d < 10
    ensures '0' <= c <= '9'
  {
    ('0' as int + d) as char
  }

  /** Decimal digits of `n`, as PHP prints an integer. */
  function NatToString(n: nat): (s: string)
    ensures |s| > 0
    ensures forall k :: 0 <= k < |s| ==> '0' <= s[k] <= '9'
  {
    if n < 10 then [DigitChar(n)] else NatToString(n / 10) + [DigitChar(n % 10)]
  }

  /** The value of a string of decimal digits. */
  function DigitsValue(s: string): nat
    requires forall k :: 0 <= k < |s| ==> '0' <= s[k] <= '9'
  {
    if |s| == 0 then 0 else 10 * DigitsValue(s[..|s| - 1]) + (s[|s| - 1] as int - '0' as int)
  }

  /** The decimal text of a number reads back as that number. */
  lemma {:induction false} NatToStringValue(n: nat)
    ensures DigitsValue(NatToString(n)) == n
  {
    if n >= 10 {
      NatToStringValue(n / 10);
      var s := NatToString(n);
      assert s[..|s| - 1] == NatToString(n / 10);
    }
  }

  /** PHP's string conversion of an integer. */
  function IntToString(n: int): (s: string)
    ensures '.' !in s && '/' !in s
  {
    if n < 0 then "-" + NatToString(-n) else NatToString(n)
  }

  /** The part of `s` after the last `c`, or None when `s` holds no `c`. */
  function AfterLast(s: string, c: char): (r: Option<string>)
    ensures r.Some? <==> c in s
    ensures r.Some? ==> c !in r.value && |r.value| < |s| && s[|s| - |r.value|..] == r.value
                        && s[|s| - |r.value| - 1] == c
  {
    if |s| == 0 then None
    else if s[|s| - 1] == c then Some("")
    else
      var init := s[..|s| - 1];
      assert s == init + [s[|s| - 1]];
      match AfterLast(init, c)
      case None => None
      case Some(t) => Some(t + [s[|s| - 1]])
  }

  /** `AfterLast` only looks at the text after the final `c`. */
  lemma {:induction false} AfterLastAppend(s: string, c: char, t: string)
    requires c !in t
    ensures AfterLast(s + [c] + t, c) == Some(t)
  {
    var u := s + [c] + t;
    if |t| == 0 {
      assert u[|u| - 1] == c;
    } else {
      assert u[..|u| - 1] == s + [c] + t[..|t| - 1];
      AfterLastAppend(s, c, t[..|t| - 1]);
      assert t[..|t| - 1] + [t[|t| - 1]] == t;
    }
  }

  /** A last character other than `c` is kept after the last `c`. */
  lemma AfterLastStep(init: string, last: char, c: char)
    requires last != c
    ensures AfterLast(init + [last], c) == match AfterLast(init, c)
                                          case None => None
                                          case Some(w) => Some(w + [last])
  {
    var u := init + [last];
    assert u[..|u| - 1] == init;
  }

  lemma {:induction false} AfterLastExtend(s: string, c: char, t: string)
    requires c !in t
    ensures c !in s ==> AfterLast(s + t, c) == None
    ensures c in s ==> AfterLast(s + t, c) == Some(AfterLast(s, c).value + t)
  {
    if c !in s {
      assert c !in s + t;
    } else if |t| == 0 {
      assert s + t == s;
      assert AfterLast(s, c).value + t == AfterLast(s, c).value;
    } else {
      var t' := t[..|t| - 1];
      var last := t[|t| - 1];
      assert s + t == (s + t') + [last] by {
        assert t == t' + [last];
      }
      AfterLastExtend(s, c, t');
      var w := AfterLast(s, c).value;
      AfterLastStep(s + t', last, c);
      assert w + t' + [last] == w + t;
    }
  }

  /** `basename` on a path with `/` separators (trailing-slash handling left out). */
  function Basename(path: string): (b: string)
    ensures '/' !in b
  {
    match AfterLast(path, '/')
    case None => path
    case Some(t) => t
  }

  /** `pathinfo(name, PATHINFO_EXTENSION)`: the text after the last dot of the
      base name, or "" when the base name has no dot. */
  function Extension(name: string): (ext: string)
    ensures '.' !in ext && '/' !in ext
  {
    match AfterLast(Basename(name), '.')
    case None => ""
    case Some(e) => e
  }

  /** Appending `"." + ext` to any text gives a name whose extension is `ext`,
      whenever `ext` could itself be an extension. */
  lemma ExtensionOfAppended(prefix: string, ext: string)
    requires '.' !in ext && '/' !in ext
    ensures Extension(prefix + "." + ext) == ext
  {
    var name := prefix + "." + ext;
    AfterLastExtend(prefix + ".", '/', ext);
    if '/' in prefix + "." {
      var head := AfterLast(prefix + ".", '/').value;
      assert Basename(name) == head + ext;
      assert '/' in prefix by {
        assert (prefix + ".")[|prefix + "."| - 1] == '.';
        var k :| 0 <= k < |prefix + "."| && (prefix + ".")[k] == '/';
        assert k < |prefix|;
        assert prefix[k] == '/';
      }
      var rest := AfterLast(prefix, '/').value;
      AfterLastExtend(prefix, '/', ".");
      assert head == rest + ".";
      AfterLastAppend(rest, '.', ext);
      assert rest + [ '.' ] + ext == head + ext;
    } else {
      assert Basename(name) == name;
      AfterLastAppend(prefix, '.', ext);
      assert prefix + ['.'] + ext == name;
    }
  }
}

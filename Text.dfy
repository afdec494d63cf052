/**
 * String operations of the Rust standard library that the server relies on,
 * on `string` (a sequence of Unicode scalar values):
 * `to_ascii_lowercase`, `find`/`contains`, `ends_with`, `trim_start_matches`,
 * `trim`, `lines` and the UTF-8 byte width that `find` reports offsets in.
 */
module Text {
  import opened Wrappers

  /** `a` is a prefix of `b`. */
  predicate IsPrefix<T(==)>(a: seq<T>, b: seq<T>) {
    |a| <= |b| && a == b[..|a|]
  }

  lemma ConcatAssoc<T>(a: seq<T>, b: seq<T>, c: seq<T>)
    ensures a + b + c == a + (b + c)
  {
  }

  /** A prefix of `b` is a prefix of every extension of `b`. */
  lemma PrefixExtend<T>(a: seq<T>, b: seq<T>, c: seq<T>)
    requires IsPrefix(a, b)
    ensures IsPrefix(a, b + c)
  {
    assert (b + c)[..|a|] == b[..|a|];
  }

  // ---------------------------------------------------------------------
  // ASCII lower-casing
  // ---------------------------------------------------------------------

  /** `char::to_ascii_lowercase`: only 'A'..'Z' change. */
  function ToAsciiLower(c: char): (r: char)
    ensures 'A' <= c <= 'Z' ==> r as int == c as int + 32
    ensures !('A' <= c <= 'Z') ==> r == c
  {
    if 'A' <= c <= 'Z' then (c as int + 32) as char else c
  }

  /** `str::to_ascii_lowercase`: lower-cases every ASCII letter, keeps the length. */
  function Lower(s: string): (r: string)
    ensures |r| == |s|
    ensures forall i :: 0 <= i < |s| ==> r[i] == ToAsciiLower(s[i])
  {
    if s == [] then [] else [ToAsciiLower(s[0])] + Lower(s[1..])
  }

  // ---------------------------------------------------------------------
  // Substring search
  // ---------------------------------------------------------------------

  /** `needle` occurs in `hay` starting at index `k`. */
  predicate OccursAt(hay: string, needle: string, k: int) {
    0 <= k && k + |needle| <= |hay| && hay[k..k + |needle|] == needle
  }

  function FindFrom(hay: string, needle: string, k: nat): (r: Option<nat>)
    decreases |hay| - k
    ensures r.Some? ==> k <= r.value && OccursAt(hay, needle, r.value)
    ensures r.Some? ==> forall j :: k <= j < r.value ==> !OccursAt(hay, needle, j)
    ensures r.None? ==> forall j :: k <= j ==> !OccursAt(hay, needle, j)
  {
    if k + |needle| > |hay| then None
    else if hay[k..k + |needle|] == needle then Some(k)
    else FindFrom(hay, needle, k + 1)
  }

  /** `str::find`: the first index at which `needle` occurs, if any. */
  function Find(hay: string, needle: string): (r: Option<nat>)
    ensures r.Some? <==> exists j :: OccursAt(hay, needle, j)
    ensures r.Some? ==> OccursAt(hay, needle, r.value)
    ensures r.Some? ==> forall j :: 0 <= j < r.value ==> !OccursAt(hay, needle, j)
  {
    FindFrom(hay, needle, 0)
  }

  /** `str::contains` with a string pattern. */
  predicate Contains(hay: string, needle: string)
    ensures Contains(hay, needle) <==> exists j :: OccursAt(hay, needle, j)
  {
    Find(hay, needle).Some?
  }

  /** `str::ends_with` with a string pattern. */
  predicate EndsWith(s: string, suffix: string)
    ensures EndsWith(s, suffix) <==>
      |suffix| <= |s| && forall i :: 0 <= i < |suffix| ==> s[|s| - |suffix| + i] == suffix[i]
  {
    |suffix| <= |s| && s[|s| - |suffix|..] == suffix
  }

  // ---------------------------------------------------------------------
  // Trimming
  // ---------------------------------------------------------------------

  /**
   * `char::is_whitespace`: the Unicode White_Space property; among ASCII
   * characters it holds for tab, line feed, vertical tab, form feed,
   * carriage return and space.
   */
  predicate IsWhitespace(c: char)
    ensures (c as int) < 0x80 ==> (IsWhitespace(c) <==> c in "\t\n\U{000B}\U{000C}\r ")
  {
    || '\U{0009}' <= c <= '\U{000D}'
    || c == '\U{0020}'
    || c == '\U{0085}'
    || c == '\U{00A0}'
    || c == '\U{1680}'
    || '\U{2000}' <= c <= '\U{200A}'
    || c == '\U{2028}' || c == '\U{2029}'
    || c == '\U{202F}' || c == '\U{205F}'
    || c == '\U{3000}'
  }

  /** The first index at or after `i` whose character does not match `p`, or `|s|`. */
  function SkipStart(s: string, p: char -> bool, i: nat): (j: nat)
    requires i <= |s|
    ensures i <= j <= |s|
    ensures forall k :: i <= k < j ==> p(s[k])
    ensures j == |s| || !p(s[j])
    decreases |s| - i
  {
    if i < |s| && p(s[i]) then SkipStart(s, p, i + 1) else i
  }

  /** The last cut at or before `j`, but not before `lo`, with only `p`-matching characters after it up to `j`. */
  function SkipEnd(s: string, p: char -> bool, lo: nat, j: nat): (k: nat)
    requires lo <= j <= |s|
    ensures lo <= k <= j
    ensures forall m :: k <= m < j ==> p(s[m])
    ensures k == lo || !p(s[k - 1])
    decreases j
  {
    if j > lo && p(s[j - 1]) then SkipEnd(s, p, lo, j - 1) else j
  }

  /** `str::trim_start_matches` with a character pattern `p`. */
  function TrimStartMatches(s: string, p: char -> bool): (r: string)
    ensures |r| <= |s| && r == s[|s| - |r|..]
    ensures forall i :: 0 <= i < |s| - |r| ==> p(s[i])
    ensures r == [] || !p(r[0])
  {
    s[SkipStart(s, p, 0)..]
  }

  /** `r` is `s[a..a + |r|]` and everything of `s` outside that slice satisfies `p`. */
  predicate TrimmedAt(s: string, r: string, a: int, p: char -> bool) {
    0 <= a && a + |r| <= |s| && r == s[a..a + |r|]
    && (forall i :: 0 <= i < a ==> p(s[i]))
    && (forall i :: a + |r| <= i < |s| ==> p(s[i]))
  }

  /**
   * `str::trim_matches` with a character pattern `p`: what is left is a slice
   * of `s` with only `p`-matching characters around it, and it neither starts
   * nor ends with one.
   */
  function TrimMatches(s: string, p: char -> bool): (r: string)
    ensures TrimmedAt(s, r, SkipStart(s, p, 0), p)
    ensures r == [] || (!p(r[0]) && !p(r[|r| - 1]))
  {
    var a := SkipStart(s, p, 0);
    var b := SkipEnd(s, p, a, |s|);
    assert a < b ==> s[a..b][0] == s[a] && s[a..b][b - a - 1] == s[b - 1];
    s[a..b]
  }

  /**
   * `str::trim`: removes the characters with the White_Space property from
   * both ends, and only those.
   */
  function Trim(s: string): (r: string)
    ensures TrimmedAt(s, r, SkipStart(s, IsWhitespace, 0), IsWhitespace)
    ensures r == [] || (!IsWhitespace(r[0]) && !IsWhitespace(r[|r| - 1]))
  {
    TrimMatches(s, IsWhitespace)
  }

  /** `chars().take(n).collect()`. */
  function Take(s: string, n: nat): (r: string)
    ensures |r| == if |s| <= n then |s| else n
    ensures IsPrefix(r, s)
  {
    if |s| <= n then s else s[..n]
  }

  // ---------------------------------------------------------------------
  // UTF-8 width
  // ---------------------------------------------------------------------

  /** Number of bytes UTF-8 uses to encode `c`. */
  function Utf8Len(c: char): (n: nat)
    ensures 1 <= n <= 4
    ensures n == 1 <==> (c as int) < 0x80
  {
    if (c as int) < 0x80 then 1
    else if (c as int) < 0x800 then 2
    else if (c as int) < 0x1_0000 then 3
    else 4
  }

  /** Length in bytes of the UTF-8 encoding of `s`; Rust string offsets count these. */
  function Utf8Width(s: string): (w: nat)
    ensures |s| <= w <= 4 * |s|
  {
    if s == [] then 0 else Utf8Len(s[0]) + Utf8Width(s[1..])
  }

  predicate IsAscii(s: string) {
    forall i :: 0 <= i < |s| ==> (s[i] as int) < 0x80
  }

  /** An ASCII string has as many bytes as characters. */
  lemma {:induction false} AsciiWidth(s: string)
    requires IsAscii(s)
    ensures Utf8Width(s) == |s|
  {
    if s != [] {
      assert IsAscii(s[1..]) by {
        forall i | 0 <= i < |s[1..]| ensures (s[1..][i] as int) < 0x80 {
          assert s[1..][i] == s[i + 1];
        }
      }
      AsciiWidth(s[1..]);
    }
  }

  /** ASCII lower-casing never changes the byte width, so byte offsets agree. */
  lemma {:induction false} LowerKeepsWidth(s: string)
    ensures Utf8Width(Lower(s)) == Utf8Width(s)
  {
    if s != [] {
      assert Lower(s)[1..] == Lower(s[1..]);
      LowerKeepsWidth(s[1..]);
    }
  }

  // ---------------------------------------------------------------------
  // Lines
  // ---------------------------------------------------------------------

  /** Index of the first `c` in `s`. */
  function IndexOf(s: string, c: char): (r: Option<nat>)
    ensures r.Some? ==> r.value < |s| && s[r.value] == c && c !in s[..r.value]
    ensures r.None? ==> c !in s
  {
    if s == [] then None
    else if s[0] == c then Some(0)
    else match IndexOf(s[1..], c)
      case None => None
      case Some(i) => Some(i + 1)
  }

  /** Drops one trailing carriage return. */
  function StripCr(s: string): (r: string)
    ensures s != [] && s[|s| - 1] == '\r' ==> s == r + "\r"
    ensures !(s != [] && s[|s| - 1] == '\r') ==> r == s
  {
    if s != [] && s[|s| - 1] == '\r' then s[..|s| - 1] else s
  }

  /**
   * `str::lines`: the pieces between line feeds, each with a "\r" that stood
   * right before its "\n" removed; a final "\n" does not start an empty line,
   * and a last line without "\n" keeps any "\r" it ends with.
   */
  function Lines(text: string): (r: seq<string>)
    ensures forall i :: 0 <= i < |r| ==> '\n' !in r[i]
    decreases |text|
  {
    if text == [] then []
    else match IndexOf(text, '\n')
      case None => [text]
      case Some(i) => [StripCr(text[..i])] + Lines(text[i + 1..])
  }

  /** Number of occurrences of `c` in `s`. */
  function Count(s: string, c: char): nat {
    if s == [] then 0 else (if s[0] == c then 1 else 0) + Count(s[1..], c)
  }

  lemma {:induction false} CountConcat(a: string, b: string, c: char)
    ensures Count(a + b, c) == Count(a, c) + Count(b, c)
  {
    if a == [] {
      assert a + b == b;
    } else {
      assert (a + b)[1..] == a[1..] + b;
      CountConcat(a[1..], b, c);
    }
  }

  lemma {:induction false} CountAbsent(s: string, c: char)
    requires c !in s
    ensures Count(s, c) == 0
  {
    if s != [] {
      assert c !in s[1..];
      CountAbsent(s[1..], c);
    }
  }

  /** One step of `Lines`: the text up to its first line feed, and the rest. */
  lemma LinesStep(text: string, i: nat)
    requires IndexOf(text, '\n') == Some(i)
    ensures text == text[..i] + "\n" + text[i + 1..]
    ensures '\n' !in text[..i]
    ensures Lines(text) == [StripCr(text[..i])] + Lines(text[i + 1..])
  {
    assert text == text[..i] + [text[i]] + text[i + 1..];
  }

  /** A text has one line per line feed, plus one for an unterminated last line. */
  lemma {:induction false} LinesCount(text: string)
    ensures |Lines(text)| == Count(text, '\n') + (if text != [] && text[|text| - 1] != '\n' then 1 else 0)
    decreases |text|
  {
    if text != [] {
      var idx := IndexOf(text, '\n');
      if idx.None? {
        CountAbsent(text, '\n');
      } else {
        var i := idx.value;
        var head, rest := text[..i], text[i + 1..];
        LinesStep(text, i);
        CountConcat(head + "\n", rest, '\n');
        CountConcat(head, "\n", '\n');
        CountAbsent(head, '\n');
        assert Count("\n", '\n') == 1;
        LinesCount(rest);
        assert rest != [] ==> text[|text| - 1] == rest[|rest| - 1];
      }
    }
  }

  /** Puts the line ending `eol` after every line. */
  function Unlines(ls: seq<string>, eol: string): string {
    if ls == [] then [] else ls[0] + eol + Unlines(ls[1..], eol)
  }

  /**
   * Without carriage returns, `lines` loses nothing but the information
   * whether the last line was terminated.
   */
  lemma {:induction false} LinesRoundTrip(text: string)
    requires '\r' !in text
    ensures Unlines(Lines(text), "\n") == if text == [] || text[|text| - 1] == '\n' then text else text + "\n"
    decreases |text|
  {
    if text != [] {
      var idx := IndexOf(text, '\n');
      if idx.None? {
        assert text[|text| - 1] != '\n';
        assert Unlines([text], "\n") == text + "\n" + Unlines([], "\n");
      } else {
        var i := idx.value;
        var head, rest := text[..i], text[i + 1..];
        LinesStep(text, i);
        assert '\r' !in head && '\r' !in rest;
        assert head == [] || head[|head| - 1] != '\r';
        assert StripCr(head) == head;
        LinesRoundTrip(rest);
        assert Unlines(Lines(text), "\n") == head + "\n" + Unlines(Lines(rest), "\n");
        assert rest != [] ==> text[|text| - 1] == rest[|rest| - 1];
      }
    }
  }

  /** Every line feed in `text` comes right after a carriage return. */
  predicate CrLfOnly(text: string) {
    forall i :: 0 <= i < |text| && text[i] == '\n' ==> 0 < i && text[i - 1] == '\r'
  }

  /**
   * With "\r\n" line endings throughout, `lines` strips each "\r" together
   * with its "\n", and rejoining with "\r\n" gives the text back, up to a
   * line ending after the last line.
   */
  lemma {:induction false} LinesRoundTripCrLf(text: string)
    requires CrLfOnly(text)
    ensures Unlines(Lines(text), "\r\n") == if text == [] || text[|text| - 1] == '\n' then text else text + "\r\n"
    decreases |text|
  {
    if text != [] {
      var idx := IndexOf(text, '\n');
      if idx.None? {
        assert text[|text| - 1] != '\n';
        assert Unlines([text], "\r\n") == text + "\r\n" + Unlines([], "\r\n");
      } else {
        var i := idx.value;
        var head, rest := text[..i], text[i + 1..];
        LinesStep(text, i);
        assert 0 < i && text[i - 1] == '\r';
        var line := StripCr(head);
        assert head == line + "\r";
        CrLfOnlySuffix(text, i + 1);
        LinesRoundTripCrLf(rest);
        var tail := Unlines(Lines(rest), "\r\n");
        assert ([line] + Lines(rest))[1..] == Lines(rest);
        assert Unlines(Lines(text), "\r\n") == line + "\r\n" + tail;
        CrLfJoin(line, rest);
        assert text == line + "\r\n" + rest;
        if rest == [] {
          assert tail == [];
        } else {
          assert text[|text| - 1] == rest[|rest| - 1];
          ConcatAssoc(line + "\r\n", rest, "\r\n");
        }
      }
    }
  }

  /** What follows a line feed keeps "\r\n" endings. */
  lemma CrLfOnlySuffix(text: string, k: nat)
    requires CrLfOnly(text) && 0 < k <= |text| && text[k - 1] == '\n'
    ensures CrLfOnly(text[k..])
  {
    var rest := text[k..];
    forall j | 0 <= j < |rest| && rest[j] == '\n' ensures 0 < j && rest[j - 1] == '\r' {
      assert rest[j] == text[k + j];
      if j > 0 {
        assert rest[j - 1] == text[k + j - 1];
      }
    }
  }

  lemma CrLfJoin(line: string, rest: string)
    ensures line + "\r" + "\n" + rest == line + "\r\n" + rest
  {
    assert line + "\r" + "\n" == line + "\r\n";
  }
}

/** The JavaScript string primitives the application leans on: the `\s`
    character class, `trim`, `indexOf`/`lastIndexOf` and `split` on a
    one-character separator. Strings are sequences of characters; a character
    stands for one UTF-16 code unit of the JavaScript string. */
module Text {
  import opened Options

  /** JavaScript's `\s` class, which is also the set `String.prototype.trim`
      removes: the ECMAScript WhiteSpace and LineTerminator characters. */
  predicate IsWhitespace(c: char)
  {
    || c == ' ' || c == '\t' || c == '\n' || c == '\U{B}' || c == '\U{C}' || c == '\r'
    || c == '\U{A0}' || c == '\U{1680}' || ('\U{2000}' <= c <= '\U{200A}')
    || c == '\U{2028}' || c == '\U{2029}' || c == '\U{202F}' || c == '\U{205F}'
    || c == '\U{3000}' || c == '\U{FEFF}'
  }

  /** The characters a regular-expression `.` does not match. */
  predicate IsLineTerminator(c: char)
  {
    c == '\n' || c == '\r' || c == '\U{2028}' || c == '\U{2029}'
  }

  /** JavaScript's `\d` class. */
  predicate IsDigit(c: char)
  {
    '0' <= c <= '9'
  }

  /** JavaScript truthiness of an optional string field of a request body:
      present and not empty. */
  predicate Truthy(field: Option<string>)
  {
    field.Some? && field.value != ""
  }

  /** True when `!s.trim()` holds in JavaScript: nothing but whitespace. */
  predicate IsBlank(s: string)
  {
    forall i :: 0 <= i < |s| ==> IsWhitespace(s[i])
  }

  predicate HasNoWhitespace(s: string)
  {
    forall i :: 0 <= i < |s| ==> !IsWhitespace(s[i])
  }

  /** How many whitespace characters `s` starts with. */
  function LeadingWhitespace(s: string): (n: nat)
    ensures n <= |s|
    ensures forall i :: 0 <= i < n ==> IsWhitespace(s[i])
    ensures n < |s| ==> !IsWhitespace(s[n])
    decreases |s|
  {
    if s != [] && IsWhitespace(s[0]) then
      var n := LeadingWhitespace(s[1..]);
      assert forall i :: 1 <= i <= n ==> s[i] == s[1..][i - 1];
      1 + n
    else 0
  }

  /** How many whitespace characters `s` ends with. */
  function TrailingWhitespace(s: string): (n: nat)
    ensures n <= |s|
    ensures forall i :: |s| - n <= i < |s| ==> IsWhitespace(s[i])
    ensures n < |s| ==> !IsWhitespace(s[|s| - n - 1])
    decreases |s|
  {
    if s != [] && IsWhitespace(s[|s| - 1]) then
      var n := TrailingWhitespace(s[..|s| - 1]);
      assert forall i :: |s| - 1 - n <= i < |s| - 1 ==> s[i] == s[..|s| - 1][i];
      1 + n
    else 0
  }

  /** `String.prototype.trim`: the stretch of `s` after its leading
      whitespace that leaves only whitespace behind it; neither end of the
      result is whitespace. */
  function Trim(s: string): (r: string)
    ensures LeadingWhitespace(s) + |r| <= |s|
    ensures r == s[LeadingWhitespace(s)..LeadingWhitespace(s) + |r|]
    ensures forall i :: LeadingWhitespace(s) + |r| <= i < |s| ==> IsWhitespace(s[i])
    ensures r != [] ==> !IsWhitespace(r[0]) && !IsWhitespace(r[|r| - 1])
  {
    var a := LeadingWhitespace(s);
    var t := s[a..];
    var b := TrailingWhitespace(t);
    forall i | |s| - b <= i < |s|
      ensures IsWhitespace(s[i])
    {
      assert s[i] == t[i - a];
    }
    var r := s[a..|s| - b];
    assert r != [] ==> r[0] == s[a] && r[|r| - 1] == t[|t| - b - 1];
    r
  }

  /** Trimming takes off exactly the whitespace around a text whose ends
      are not whitespace. */
  lemma TrimAround(w1: string, t: string, w2: string)
    requires IsBlank(w1) && IsBlank(w2)
    requires t != [] && !IsWhitespace(t[0]) && !IsWhitespace(t[|t| - 1])
    ensures Trim(w1 + t + w2) == t
  {
    var s := w1 + t + w2;
    assert s == w1 + (t + w2);
    LeadingOfPadded(w1, t + w2);
    assert s[|w1|..] == t + w2;
    TrailingOfPadded(t, w2);
    assert s[|w1|..|s| - |w2|] == t;
  }

  /** Whitespace followed by a text that starts with a non-whitespace
      character leads with exactly that whitespace. */
  lemma LeadingOfPadded(w: string, u: string)
    requires IsBlank(w) && u != [] && !IsWhitespace(u[0])
    ensures LeadingWhitespace(w + u) == |w|
  {
    var s := w + u;
    assert forall i :: 0 <= i < |w| ==> s[i] == w[i];
    assert s[|w|] == u[0];
  }

  /** A text that ends in a non-whitespace character, followed by
      whitespace, ends with exactly that whitespace. */
  lemma TrailingOfPadded(u: string, w: string)
    requires IsBlank(w) && u != [] && !IsWhitespace(u[|u| - 1])
    ensures TrailingWhitespace(u + w) == |w|
  {
    var s := u + w;
    assert forall i :: |u| <= i < |s| ==> s[i] == w[i - |u|];
    assert s[|u| - 1] == u[|u| - 1];
  }

  /** `!s.trim()` is true exactly for blank strings. */
  lemma TrimEmptyIffBlank(s: string)
    ensures Trim(s) == [] <==> IsBlank(s)
  {
  }

  /** A string without whitespace is left alone by `trim`. */
  lemma TrimNoWhitespace(s: string)
    requires HasNoWhitespace(s)
    ensures Trim(s) == s
  {
  }

  /** Digits are not whitespace, so `trim` leaves a string of digits alone. */
  lemma DigitsTrimToThemselves(s: string)
    requires forall i :: 0 <= i < |s| ==> IsDigit(s[i])
    ensures HasNoWhitespace(s) && Trim(s) == s
  {
    forall i | 0 <= i < |s|
      ensures !IsWhitespace(s[i])
    {
      assert IsDigit(s[i]);
    }
    TrimNoWhitespace(s);
  }

  /** `s.indexOf(c)`, with `None` for -1. */
  function IndexOf(s: string, c: char): (r: Option<nat>)
    ensures r.Some? ==> r.value < |s| && s[r.value] == c
    ensures r.Some? ==> forall i :: 0 <= i < r.value ==> s[i] != c
    ensures r.None? <==> c !in s
    decreases |s|
  {
    if s == [] then None
    else if s[0] == c then Some(0)
    else match IndexOf(s[1..], c)
      case None => None
      case Some(i) => Some(i + 1)
  }

  /** `s.lastIndexOf(c)`, with `None` for -1. */
  function LastIndexOf(s: string, c: char): (r: Option<nat>)
    ensures r.Some? ==> r.value < |s| && s[r.value] == c
    ensures r.Some? ==> forall i :: r.value < i < |s| ==> s[i] != c
    ensures r.None? <==> c !in s
    decreases |s|
  {
    if s == [] then None
    else if s[|s| - 1] == c then Some(|s| - 1)
    else LastIndexOf(s[..|s| - 1], c)
  }

  /** Index of the first line terminator. */
  function FirstLineBreak(s: string): (r: Option<nat>)
    ensures r.Some? ==> r.value < |s| && IsLineTerminator(s[r.value])
    ensures r.Some? ==> forall i :: 0 <= i < r.value ==> !IsLineTerminator(s[i])
    ensures r.None? ==> forall i :: 0 <= i < |s| ==> !IsLineTerminator(s[i])
    decreases |s|
  {
    if s == [] then None
    else if IsLineTerminator(s[0]) then Some(0)
    else match FirstLineBreak(s[1..])
      case None => None
      case Some(i) => Some(i + 1)
  }

  /** Index of the last line terminator. */
  function LastLineBreak(s: string): (r: Option<nat>)
    ensures r.Some? ==> r.value < |s| && IsLineTerminator(s[r.value])
    ensures r.Some? ==> forall i :: r.value < i < |s| ==> !IsLineTerminator(s[i])
    ensures r.None? ==> forall i :: 0 <= i < |s| ==> !IsLineTerminator(s[i])
    decreases |s|
  {
    if s == [] then None
    else if IsLineTerminator(s[|s| - 1]) then Some(|s| - 1)
    else LastLineBreak(s[..|s| - 1])
  }

  /** `s.split(sep)` for a one-character separator: the pieces between
      consecutive separators, always at least one. */
  function Split(s: string, sep: char): (parts: seq<string>)
    ensures |parts| >= 1
    ensures forall i :: 0 <= i < |parts| ==> sep !in parts[i]
    decreases |s|
  {
    match IndexOf(s, sep)
    case None => [s]
    case Some(i) => [s[..i]] + Split(s[i + 1..], sep)
  }

  /** `parts.join(sep)`. */
  function Join(parts: seq<string>, sep: char): string
    requires |parts| >= 1
    decreases |parts|
  {
    if |parts| == 1 then parts[0] else parts[0] + [sep] + Join(parts[1..], sep)
  }

  /** Joining the pieces back together gives the original string. */
  lemma {:induction false} JoinSplit(s: string, sep: char)
    ensures Join(Split(s, sep), sep) == s
    decreases |s|
  {
    match IndexOf(s, sep)
    case None =>
    case Some(i) =>
      var rest := Split(s[i + 1..], sep);
      var parts := [s[..i]] + rest;
      assert Split(s, sep) == parts;
      assert parts[0] == s[..i] && parts[1..] == rest;
      calc {
        Join(parts, sep);
        parts[0] + [sep] + Join(parts[1..], sep);
        s[..i] + [sep] + Join(rest, sep);
        { JoinSplit(s[i + 1..], sep); }
        s[..i] + [sep] + s[i + 1..];
        { assert s == s[..i] + [sep] + s[i + 1..]; }
        s;
      }
  }

  /** The first separator of `a + [sep] + b` is the one after `a` when `a` has none. */
  lemma IndexOfAfterPrefix(a: string, sep: char, b: string)
    requires sep !in a
    ensures IndexOf(a + [sep] + b, sep) == Some(|a|)
  {
    var s := a + [sep] + b;
    forall j | 0 <= j < |a|
      ensures s[j] != sep
    {
      assert s[j] == a[j];
    }
    assert s[|a|] == sep;
  }

  /** Splitting a join of separator-free pieces gives the pieces back. */
  lemma {:induction false} SplitJoin(parts: seq<string>, sep: char)
    requires |parts| >= 1
    requires forall i :: 0 <= i < |parts| ==> sep !in parts[i]
    ensures Split(Join(parts, sep), sep) == parts
    decreases |parts|
  {
    if |parts| == 1 {
      assert sep !in parts[0];
    } else {
      var head := parts[0];
      var rest := Join(parts[1..], sep);
      var s := head + [sep] + rest;
      assert sep !in head;
      IndexOfAfterPrefix(head, sep, rest);
      assert s[..|head|] == head;
      assert s[|head| + 1..] == rest;
      assert Split(s, sep) == [head] + Split(rest, sep);
      SplitJoin(parts[1..], sep);
      assert parts == [head] + parts[1..];
    }
  }

  /** The first two pieces: the text before the first separator, and the text
      between the first and the second separator (or the end). */
  lemma SplitFirstTwo(s: string, sep: char, i: nat)
    requires i < |s| && s[i] == sep && sep !in s[..i]
    ensures |Split(s, sep)| >= 2
    ensures Split(s, sep)[0] == s[..i]
    ensures Split(s, sep)[1] == Split(s[i + 1..], sep)[0]
  {
    forall j | 0 <= j < i
      ensures s[j] != sep
    {
      assert s[j] == s[..i][j];
    }
    assert IndexOf(s, sep) == Some(i);
  }

  /** The first piece is everything up to the first separator. */
  lemma SplitFirst(s: string, sep: char)
    ensures sep !in s ==> Split(s, sep) == [s]
    ensures sep in s ==> |Split(s, sep)| >= 2
    ensures Split(s, sep)[0] == match IndexOf(s, sep) case None => s case Some(i) => s[..i]
  {
  }

  /** Where the second piece sits, given the first separator at `i`: right
      after it, running to the next separator or the end. */
  lemma SecondPiece(h: string, sep: char, i: nat)
    requires i < |h| && h[i] == sep && forall k :: 0 <= k < i ==> h[k] != sep
    ensures |Split(h, sep)| >= 2
    ensures var t := Split(h, sep)[1];
      && sep !in h[..i] && i + 1 + |t| <= |h| && h[i + 1..i + 1 + |t|] == t
      && (i + 1 + |t| == |h| || h[i + 1 + |t|] == sep)
  {
    assert sep !in h[..i];
    SplitFirstTwo(h, sep, i);
    var rest := h[i + 1..];
    SplitFirst(rest, sep);
    match IndexOf(rest, sep)
    case None =>
    case Some(j) => assert rest[..j] == h[i + 1..i + 1 + j];
  }
}

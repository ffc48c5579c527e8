/** The two email-format tests of the application.

    The server (backend/src/controllers/authController.ts) tests the
    unanchored pattern `\S+@\S+\.\S+`: somewhere in the string there is an
    '@' with a non-space before it, followed by a run of non-spaces that ends
    in a '.' with a non-space after it.

    The sign-in page (app/src/components/SignIn.tsx) tests the anchored
    pattern `^[^\s@]+@[^\s@]+\.[^\s@]+$`: the whole string is `A@R` with no
    whitespace and a single '@', and `R` has a '.' that is neither its first
    nor its last character.

    Each test is given declaratively (ghost predicates) and as an executable
    scan, and the two are proved to agree. */
module EmailFormat {
  import opened Text

  // ---------------------------------------------------------------------
  // Server pattern  \S+@\S+\.\S+  (unanchored)
  // ---------------------------------------------------------------------

  /** The pattern matches with its '@' at `j` and its literal '.' at `k`. */
  ghost predicate ServerMatchAt(s: string, j: int, k: int)
  {
    && 0 < j && j + 1 < k && k + 1 < |s|
    && s[j] == '@' && s[k] == '.'
    && !IsWhitespace(s[j - 1]) && !IsWhitespace(s[k + 1])
    && forall i :: j < i < k ==> !IsWhitespace(s[i])
  }

  ghost predicate MatchesServerPattern(s: string)
  {
    exists j, k :: ServerMatchAt(s, j, k)
  }

  /** From `m`, a run of non-spaces reaches a '.' at `k` that has a non-space after it. */
  ghost predicate DotRunEndsAt(s: string, m: int, k: int)
  {
    && 0 <= m <= k && k + 1 < |s|
    && s[k] == '.' && !IsWhitespace(s[k + 1])
    && forall i :: m <= i < k ==> !IsWhitespace(s[i])
  }

  /** Scans forward from `m` for the `\S*\.\S` tail of the pattern. */
  function DotRunFrom(s: string, m: nat): (b: bool)
    requires m <= |s|
    ensures b <==> exists k :: DotRunEndsAt(s, m, k)
    decreases |s| - m
  {
    if m + 1 >= |s| then false
    else if s[m] == '.' && !IsWhitespace(s[m + 1]) then
      assert DotRunEndsAt(s, m, m);
      true
    else if IsWhitespace(s[m]) then false
    else
      var b := DotRunFrom(s, m + 1);
      assert b <==> exists k :: DotRunEndsAt(s, m, k) by {
        if b {
          var k :| DotRunEndsAt(s, m + 1, k);
          assert DotRunEndsAt(s, m, k);
        }
        if exists k :: DotRunEndsAt(s, m, k) {
          var k :| DotRunEndsAt(s, m, k);
          assert DotRunEndsAt(s, m + 1, k);
        }
      }
      b
  }

  /** The pattern matches with its '@' at `j`. */
  predicate AnchorAt(s: string, j: nat)
  {
    && 0 < j && j + 1 < |s|
    && s[j] == '@' && !IsWhitespace(s[j - 1]) && !IsWhitespace(s[j + 1])
    && DotRunFrom(s, j + 2)
  }

  lemma AnchorAtIff(s: string, j: nat)
    ensures AnchorAt(s, j) <==> exists k :: ServerMatchAt(s, j, k)
  {
    if AnchorAt(s, j) {
      var k :| DotRunEndsAt(s, j + 2, k);
      assert ServerMatchAt(s, j, k);
    }
    if exists k :: ServerMatchAt(s, j, k) {
      var k :| ServerMatchAt(s, j, k);
      assert DotRunEndsAt(s, j + 2, k);
    }
  }

  /** Tries every '@' position from `j` on. */
  function ServerScan(s: string, j: nat): (b: bool)
    requires j <= |s|
    ensures b <==> exists j', k :: j <= j' && ServerMatchAt(s, j', k)
    decreases |s| - j
  {
    if j == |s| then
      assert forall j', k :: j <= j' && ServerMatchAt(s, j', k) ==> false;
      false
    else
      AnchorAtIff(s, j);
      var rest := ServerScan(s, j + 1);
      assert (exists j', k :: j <= j' && ServerMatchAt(s, j', k))
             <==> (AnchorAt(s, j) || rest) by {
        if exists j', k :: j <= j' && ServerMatchAt(s, j', k) {
          var j', k :| j <= j' && ServerMatchAt(s, j', k);
          if j' == j {
            assert AnchorAt(s, j);
          } else {
            assert rest;
          }
        }
      }
      AnchorAt(s, j) || rest
  }

  /** `/\S+@\S+\.\S+/.test(s)`. */
  function ServerEmailCheck(s: string): (b: bool)
    ensures b <==> MatchesServerPattern(s)
  {
    ServerScan(s, 0)
  }

  // ---------------------------------------------------------------------
  // Client pattern  ^[^\s@]+@[^\s@]+\.[^\s@]+$  (anchored)
  // ---------------------------------------------------------------------

  /** Neither whitespace nor '@': the class `[^\s@]`. */
  predicate Plain(c: char)
  {
    !IsWhitespace(c) && c != '@'
  }

  ghost predicate AllPlain(t: string)
  {
    forall i :: 0 <= i < |t| ==> Plain(t[i])
  }

  /** `r` has a '.' that is neither its first nor its last character. */
  ghost predicate HasInnerDot(r: string)
  {
    exists k :: 0 < k < |r| - 1 && r[k] == '.'
  }

  /** `s` is `A@R` with `A`, `R` free of whitespace and '@', `A` nonempty and
      `R` holding an inner '.': the '@' is at `j`. */
  ghost predicate ClientFormAt(s: string, j: int)
  {
    && 0 < j < |s| && s[j] == '@'
    && AllPlain(s[..j]) && AllPlain(s[j + 1..]) && HasInnerDot(s[j + 1..])
  }

  ghost predicate ClientForm(s: string)
  {
    exists j :: ClientFormAt(s, j)
  }

  /** States of a left-to-right reading of the anchored pattern. */
  datatype Phase =
    | Start        // nothing read
    | Local        // a nonempty local part
    | AtSign       // local part and '@'
    | Domain       // a nonempty domain with no '.' after its first character
    | DotLast      // the domain's only inner '.' so far is its last character
    | Accept       // the domain has an inner '.'
    | Reject       // no continuation can match

  function Step(p: Phase, c: char): Phase
  {
    if !Plain(c) && !(c == '@' && p == Local) then Reject
    else match p
      case Start => Local
      case Local => if c == '@' then AtSign else Local
      case AtSign => Domain
      case Domain => if c == '.' then DotLast else Domain
      case DotLast => Accept
      case Accept => Accept
      case Reject => Reject
  }

  function Run(s: string): Phase
    decreases |s|
  {
    if s == [] then Start else Step(Run(s[..|s| - 1]), s[|s| - 1])
  }

  /** `validateEmail` of the sign-in page. */
  function ValidateEmail(s: string): bool
  {
    Run(s) == Accept
  }

  // Shapes of the domain part read so far.

  ghost predicate NoDotAfterFirst(r: string)
  {
    |r| >= 1 && forall k :: 0 < k < |r| ==> r[k] != '.'
  }

  ghost predicate OnlyDotIsLast(r: string)
  {
    |r| >= 2 && r[|r| - 1] == '.' && forall k :: 0 < k < |r| - 1 ==> r[k] != '.'
  }

  /** What each phase says about the text read so far. */
  ghost predicate Describes(p: Phase, s: string)
  {
    match p
    case Start => s == []
    case Local => s != [] && AllPlain(s)
    case AtSign => |s| >= 2 && s[|s| - 1] == '@' && AllPlain(s[..|s| - 1])
    case Domain => exists j :: 0 < j < |s| - 1 && s[j] == '@' && AllPlain(s[..j]) && AllPlain(s[j + 1..]) && NoDotAfterFirst(s[j + 1..])
    case DotLast => exists j :: 0 < j < |s| - 1 && s[j] == '@' && AllPlain(s[..j]) && AllPlain(s[j + 1..]) && OnlyDotIsLast(s[j + 1..])
    case Accept => ClientForm(s)
    case Reject => true
  }

  lemma AppendPlain(t: string, c: char)
    requires AllPlain(t) && Plain(c)
    ensures AllPlain(t + [c])
  {
    assert forall i :: 0 <= i < |t| ==> (t + [c])[i] == t[i];
  }

  /** Reading one more plain character of the domain moves between the domain shapes. */
  lemma DomainShapeStep(r: string, c: char)
    requires Plain(c)
    ensures NoDotAfterFirst(r) && c != '.' ==> NoDotAfterFirst(r + [c])
    ensures NoDotAfterFirst(r) && c == '.' ==> OnlyDotIsLast(r + [c])
    ensures OnlyDotIsLast(r) ==> HasInnerDot(r + [c])
    ensures HasInnerDot(r) ==> HasInnerDot(r + [c])
  {
    var r' := r + [c];
    assert forall k :: 0 <= k < |r| ==> r'[k] == r[k];
    if OnlyDotIsLast(r) {
      assert r'[|r| - 1] == '.';
    }
    if HasInnerDot(r) {
      var k :| 0 < k < |r| - 1 && r[k] == '.';
      assert r'[k] == '.';
    }
  }

  /** The split at `j` of `s + [c]`: the parts of `s`, with `c` added to the domain. */
  lemma SplitAppend(s: string, c: char, j: nat)
    requires j < |s|
    ensures (s + [c])[..j] == s[..j]
    ensures (s + [c])[j + 1..] == s[j + 1..] + [c]
  {
  }

  /** Adding a plain character to the text after an '@' at `j`. */
  lemma DomainExtend(t: string, c: char, j: nat)
    requires j < |t| && Plain(c) && AllPlain(t[j + 1..])
    ensures (t + [c])[..j] == t[..j] && (t + [c])[j] == t[j]
    ensures (t + [c])[j + 1..] == t[j + 1..] + [c]
    ensures AllPlain((t + [c])[j + 1..])
  {
    SplitAppend(t, c, j);
    AppendPlain(t[j + 1..], c);
  }

  /** One step of the reading keeps its phase describing the text read. */
  lemma RunSoundStep(t: string, c: char)
    requires Describes(Run(t), t)
    ensures Describes(Run(t + [c]), t + [c])
  {
    var s := t + [c];
    assert s[..|s| - 1] == t;
    var p := Run(t);
    var q := Step(p, c);
    assert Run(s) == q;
    if q != Reject {
      match p
      case Start =>
        assert AllPlain(s);
      case Local =>
        if c != '@' {
          AppendPlain(t, c);
        }
      case AtSign =>
        var j := |t| - 1;
        DomainExtend(t, c, j);
        assert s[j + 1..] == [c];
        assert Describes(Domain, s);
      case Domain =>
        var j :| 0 < j < |t| - 1 && t[j] == '@' && AllPlain(t[..j]) && AllPlain(t[j + 1..]) && NoDotAfterFirst(t[j + 1..]);
        DomainExtend(t, c, j);
        DomainShapeStep(t[j + 1..], c);
      case DotLast =>
        var j :| 0 < j < |t| - 1 && t[j] == '@' && AllPlain(t[..j]) && AllPlain(t[j + 1..]) && OnlyDotIsLast(t[j + 1..]);
        DomainExtend(t, c, j);
        DomainShapeStep(t[j + 1..], c);
        assert ClientFormAt(s, j);
      case Accept =>
        var j :| ClientFormAt(t, j);
        DomainExtend(t, c, j);
        DomainShapeStep(t[j + 1..], c);
        assert ClientFormAt(s, j);
    }
  }

  /** Every phase the reading reaches, except `Reject`, describes the text read. */
  lemma {:induction false} RunSound(s: string)
    ensures Describes(Run(s), s)
    decreases |s|
  {
    if s != [] {
      var t := s[..|s| - 1];
      assert s == t + [s[|s| - 1]];
      RunSound(t);
      RunSoundStep(t, s[|s| - 1]);
    }
  }

  /** The phase a nonempty domain part `r` leads to. */
  ghost function DomainPhase(r: string): Phase
  {
    if HasInnerDot(r) then Accept
    else if OnlyDotIsLast(r) then DotLast
    else Domain
  }

  /** Reading one more plain character of the domain agrees with `Step`. */
  lemma DomainPhaseStep(r: string, c: char)
    requires |r| >= 1 && Plain(c)
    ensures Step(DomainPhase(r), c) == DomainPhase(r + [c])
  {
    var r' := r + [c];
    assert forall k :: 0 <= k < |r| ==> r'[k] == r[k];
    DomainShapeStep(r, c);
    if !HasInnerDot(r) && !OnlyDotIsLast(r) {
      assert NoDotAfterFirst(r) by {
        forall k | 0 < k < |r|
          ensures r[k] != '.'
        {
          if k < |r| - 1 {
            assert !(0 < k < |r| - 1 && r[k] == '.');
          }
        }
      }
      assert !HasInnerDot(r');
    }
  }

  /** The phase reached after the first `n` characters of a string of the
      form `A@R` with its '@' at `j`. */
  ghost function Expected(s: string, j: nat, n: nat): Phase
    requires n <= |s|
  {
    if n == 0 then Start
    else if n <= j then Local
    else if n == j + 1 then AtSign
    else DomainPhase(s[j + 1..n])
  }

  lemma {:induction false} RunOnForm(s: string, j: nat, n: nat)
    requires ClientFormAt(s, j) && n <= |s|
    ensures Run(s[..n]) == Expected(s, j, n)
    decreases n
  {
    if n > 0 {
      RunOnForm(s, j, n - 1);
      var c := s[n - 1];
      assert s[..n][..n - 1] == s[..n - 1];
      if n - 1 < j {
        assert c == s[..j][n - 1];
      } else if n - 1 > j {
        assert c == s[j + 1..][n - 1 - (j + 1)];
        if n - 1 > j + 1 {
          var r := s[j + 1..n - 1];
          assert s[j + 1..n] == r + [c];
          DomainPhaseStep(r, c);
        } else {
          assert s[j + 1..n] == [c];
          assert !HasInnerDot([c]);
        }
      }
    }
  }

  /** The reading accepts exactly the strings of the form `A@R`. */
  lemma ValidateEmailIff(s: string)
    ensures ValidateEmail(s) <==> ClientForm(s)
  {
    RunSound(s);
    if ClientForm(s) {
      var j :| ClientFormAt(s, j);
      RunOnForm(s, j, |s|);
      assert s[..|s|] == s;
    }
  }

  /** A string the sign-in page accepts has no whitespace, so it is not
      blank and trimming it changes nothing. */
  lemma ValidEmailHasNoWhitespace(s: string)
    ensures ValidateEmail(s) ==> HasNoWhitespace(s) && !IsBlank(s) && Trim(s) == s
  {
    if ValidateEmail(s) {
      ValidateEmailIff(s);
      var j :| ClientFormAt(s, j);
      forall i | 0 <= i < |s|
        ensures !IsWhitespace(s[i])
      {
        if i < j {
          assert s[i] == s[..j][i];
        } else if i > j {
          assert s[i] == s[j + 1..][i - j - 1];
        }
      }
      assert !IsWhitespace(s[j]);
      TrimNoWhitespace(s);
    }
  }

  /** Every address the sign-in page accepts also passes the server's test. */
  lemma ClientValidImpliesServerValid(s: string)
    requires ValidateEmail(s)
    ensures ServerEmailCheck(s)
  {
    ValidateEmailIff(s);
    var j :| ClientFormAt(s, j);
    var r := s[j + 1..];
    var k :| 0 < k < |r| - 1 && r[k] == '.';
    ValidEmailHasNoWhitespace(s);
    assert ServerMatchAt(s, j, j + 1 + k);
  }

  /** An address the sign-in page accepts has exactly one '@'. */
  lemma OneAtSign(s: string, j: int)
    ensures ClientFormAt(s, j) ==> forall i :: 0 <= i < |s| && i != j ==> s[i] != '@'
  {
    if ClientFormAt(s, j) {
      forall i | 0 <= i < |s| && i != j
        ensures s[i] != '@'
      {
        if i < j {
          assert s[i] == s[..j][i];
        } else {
          assert s[i] == s[j + 1..][i - j - 1];
        }
      }
    }
  }

  /** The converse fails: the server accepts a second '@' and surrounding
      text that the sign-in page rejects. */
  lemma ServerLaxerThanClient()
    ensures ServerEmailCheck("x@y@z.w") && !ValidateEmail("x@y@z.w")
  {
    var s := "x@y@z.w";
    assert ServerMatchAt(s, 1, 5);
    forall j: int
      ensures !ClientFormAt(s, j)
    {
      OneAtSign(s, j);
      assert s[1] == '@' && s[3] == '@';
    }
    ValidateEmailIff(s);
  }
}

/** The logic of the notes page (app/src/pages/Home.tsx): how the signed-in
    user's email is masked for display, and how the page's note list, draft
    and error line change when a note is created or deleted. The requests
    themselves are not modelled; the server's answer is a parameter (`None`
    where the request throws). */
module HomePage {
  import opened Options
  import opened Text
  import opened Seqs
  import Notes
  import UserStore

  /** `n` copies of 'x'. */
  function Xs(n: nat): (r: string)
    ensures |r| == n && forall i :: 0 <= i < n ==> r[i] == 'x'
  {
    seq(n, _ => 'x')
  }

  /** Where the match of `/(.*)\./` starts, given the first '.' at `f`: it
      is leftmost, and `.` matches anything but a line terminator, so it starts
      right after the last line terminator before `f`, or at 0. */
  function MatchStart(d: string, f: nat): (p: nat)
    requires f < |d|
    ensures p <= f
    ensures p == 0 || IsLineTerminator(d[p - 1])
    ensures forall i :: p <= i < f ==> !IsLineTerminator(d[i])
  {
    match LastLineBreak(d[..f])
    case None => 0
    case Some(t) => t + 1
  }

  /** Where the match ends: `(.*)` is greedy, so the final '.' is the last one
      before the next line terminator. Every later '.' lies beyond a line
      terminator. */
  function MatchEnd(d: string, f: nat): (q: nat)
    requires f < |d| && d[f] == '.'
    ensures f <= q < |d| && d[q] == '.'
    ensures forall i :: f <= i < q ==> !IsLineTerminator(d[i])
    ensures forall i :: q < i < |d| && d[i] == '.' ==> exists j :: q < j < i && IsLineTerminator(d[j])
  {
    var e := match FirstLineBreak(d[f..]) case None => |d| case Some(u) => f + u;
    assert d[..e][f] == '.';
    var q := LastIndexOf(d[..e], '.').value;
    assert forall i :: q < i < |d| && d[i] == '.' ==> i > e && IsLineTerminator(d[e]);
    q
  }

  /** The replacement of the matched stretch `[p, q]`: x's up to the final
      '.', which stays. */
  function MaskSpan(d: string, p: nat, q: nat): (r: string)
    requires p <= q < |d| && d[q] == '.'
    ensures |r| == |d|
    ensures forall i :: 0 <= i < p ==> r[i] == d[i]
    ensures forall i :: p <= i < q ==> r[i] == 'x'
    ensures r[q] == '.'
    ensures forall i :: q < i < |d| ==> r[i] == d[i]
  {
    d[..p] + Xs(q - p) + "." + d[q + 1..]
  }

  /** `domain.replace(/(.*)\./, m => "x".repeat(m.length - 1) + ".")`: the
      first match, if there is one, is replaced; the rest is unchanged. */
  function MaskDomain(d: string): (r: string)
    ensures |r| == |d|
    ensures '.' !in d ==> r == d
    ensures forall i :: 0 <= i < |d| ==> r[i] == d[i] || (r[i] == 'x' && !IsLineTerminator(d[i]))
  {
    match IndexOf(d, '.')
    case None => d
    case Some(f) => MaskSpan(d, MatchStart(d, f), MatchEnd(d, f))
  }

  /** On a domain without line terminators, which is every domain a user can
      type, everything before the last '.' becomes x's and the rest stays. */
  lemma MaskPlainDomain(d: string, q: nat)
    requires forall i :: 0 <= i < |d| ==> !IsLineTerminator(d[i])
    requires q < |d| && d[q] == '.' && '.' !in d[q + 1..]
    ensures MaskDomain(d) == Xs(q) + "." + d[q + 1..]
  {
    var f := IndexOf(d, '.').value;
    var q' := MatchEnd(d, f);
    assert q' == q;
    assert d[..0] + Xs(q) == Xs(q);
  }

  /** `name.slice(0, 1)`: the first character, or nothing for an empty name. */
  function Initial(name: string): (r: string)
    ensures |r| == if name == [] then 0 else 1
    ensures r != [] ==> r[0] == name[0]
  {
    if |name| > 0 then name[..1] else ""
  }

  /** `maskEmail`: the first character of the part before the first '@',
      five x's, '@', and the masked part between the first and second '@'.
      An email without '@' makes the page throw, shown here as `None`. */
  function MaskEmail(email: string): (r: Option<string>)
    ensures r.None? <==> '@' !in email
  {
    var parts := Split(email, '@');
    SplitFirst(email, '@');
    if |parts| < 2 then None
    else
      Some(Initial(parts[0]) + "xxxxx@" + MaskDomain(parts[1]))
  }

  /** `maskEmail` with the destructuring default `[name, domain = ""]`: the
      same text whenever there is an '@', and no throw without one. */
  function MaskEmailTotal(email: string): (r: string)
    ensures '@' in email ==> MaskEmail(email) == Some(r)
    ensures '@' !in email ==> r == Initial(email) + "xxxxx@"
  {
    var parts := Split(email, '@');
    SplitFirst(email, '@');
    var domain := if |parts| < 2 then "" else parts[1];
    Initial(parts[0]) + "xxxxx@" + MaskDomain(domain)
  }

  /** What `MaskEmail` shows for `name@domain` followed by nothing or by
      another '@' and anything: the name's first character and the masked
      domain, and nothing of what follows. */
  lemma MaskEmailOf(name: string, domain: string, rest: string)
    requires '@' !in name && '@' !in domain
    requires rest == [] || rest[0] == '@'
    ensures MaskEmail(name + "@" + domain + rest) ==
      Some(Initial(name) + "xxxxx@" + MaskDomain(domain))
  {
    var email := name + "@" + domain + rest;
    var i := |name|;
    assert email[..i] == name;
    SecondPiece(email, '@', i);
    SplitFirstTwo(email, '@', i);
    var t := Split(email, '@')[1];
    assert email[i + 1..i + 1 + |domain|] == domain;
    assert t == domain;
    assert Split(email, '@')[0] == name;
  }

  /** A domain `host.com` is shown as one x per character of the host,
      then ".com". */
  lemma MaskDotCom(host: string)
    requires forall i :: 0 <= i < |host| ==> !IsLineTerminator(host[i])
    ensures MaskDomain(host + ".com") == Xs(|host|) + ".com"
  {
    var d := host + ".com";
    var q := |host|;
    assert d[q + 1..] == "com";
    forall i | 0 <= i < |d|
      ensures !IsLineTerminator(d[i])
    {
      if i < q {
        assert d[i] == host[i];
      }
    }
    MaskPlainDomain(d, q);
  }

  /** An address `name@host.com` is shown as the name's first character,
      five x's, '@', one x per character of the host, and ".com"; so
      "john.doe@gmail.com" is shown as "jxxxxx@xxxxx.com". */
  lemma MaskDotComEmail(name: string, host: string)
    requires name != [] && '@' !in name && '@' !in host
    requires forall i :: 0 <= i < |host| ==> !IsLineTerminator(host[i])
    ensures MaskEmail(name + "@" + host + ".com") == Some([name[0]] + "xxxxx@" + Xs(|host|) + ".com")
  {
    var domain := host + ".com";
    assert '@' !in domain by {
      assert forall i :: 0 <= i < |host| ==> domain[i] == host[i];
    }
    calc {
      MaskEmail(name + "@" + host + ".com");
      { assert name + "@" + host + ".com" == name + "@" + domain + ""; }
      MaskEmail(name + "@" + domain + "");
      { MaskEmailOf(name, domain, ""); }
      Some(Initial(name) + "xxxxx@" + MaskDomain(domain));
      { MaskDotCom(host); assert Initial(name) == [name[0]]; }
      Some([name[0]] + "xxxxx@" + (Xs(|host|) + ".com"));
      { var a := [name[0]] + "xxxxx@";
        assert a + (Xs(|host|) + ".com") == a + Xs(|host|) + ".com"; }
      Some([name[0]] + "xxxxx@" + Xs(|host|) + ".com");
    }
  }

  /** The parts of the page's state these handlers touch. `notes` holds the
      notes as the server returned them. */
  datatype View = View(notes: seq<Notes.Note>, draft: string, error: string)

  /** The text `handleCreateNote` posts, or `None` when the draft is blank and
      nothing is posted. */
  function CreateRequest(draft: string): (r: Option<string>)
    ensures r.None? <==> IsBlank(draft)
    ensures r.Some? ==> r.value != [] && !IsWhitespace(r.value[0]) && !IsWhitespace(r.value[|r.value| - 1])
    ensures r.Some? ==> Truthy(r)
    ensures r.Some? ==> r.value == Trim(draft)
  {
    TrimEmptyIffBlank(draft);
    if Trim(draft) == [] then None else Some(Trim(draft))
  }

  /** A draft is posted without the whitespace typed around it. */
  lemma CreateRequestOf(w1: string, t: string, w2: string)
    requires IsBlank(w1) && IsBlank(w2)
    requires t != [] && !IsWhitespace(t[0]) && !IsWhitespace(t[|t| - 1])
    ensures CreateRequest(w1 + t + w2) == Some(t)
  {
    TrimAround(w1, t, w2);
  }

  /** `handleCreateNote`, given the server's answer to the post (`None` when
      it fails). A blank draft posts nothing and only sets the error. */
  function CreateNoteLocal(v: View, reply: Option<Notes.Note>): (v': View)
    ensures IsBlank(v.draft) ==> v' == v.(error := "Note text required")
    ensures !IsBlank(v.draft) && reply.Some? ==> v' == View(v.notes + [reply.value], "", "")
    ensures !IsBlank(v.draft) && reply.None? ==> v' == v.(error := "Failed to create note")
    ensures |v'.notes| <= |v.notes| + 1 && v'.notes[..|v.notes|] == v.notes
  {
    match CreateRequest(v.draft)
    case None => v.(error := "Note text required")
    case Some(_) =>
      match reply
      case Some(n) => View(v.notes + [n], "", "")
      case None => v.(error := "Failed to create note")
  }

  /** `handleDeleteNote`, given whether the server accepted the delete. The
      error line is only written on failure. */
  function DeleteNoteLocal(v: View, id: Notes.NoteId, ok: bool): (v': View)
    ensures !ok ==> v' == v.(error := "Failed to delete note")
    ensures ok ==> v'.draft == v.draft && v'.error == v.error
    ensures ok ==> forall i :: 0 <= i < |v'.notes| ==> v'.notes[i].id != id && v'.notes[i] in v.notes
    ensures ok ==> forall i :: 0 <= i < |v.notes| && v.notes[i].id != id ==> v.notes[i] in v'.notes
  {
    if ok then v.(notes := Filter(v.notes, Notes.NotId(id))) else v.(error := "Failed to delete note")
  }

  /** Deleting the same note twice is the same as deleting it once. */
  lemma DeleteLocalIdempotent(v: View, id: Notes.NoteId)
    ensures DeleteNoteLocal(DeleteNoteLocal(v, id, true), id, true) == DeleteNoteLocal(v, id, true)
  {
    FilterIdempotent(v.notes, Notes.NotId(id));
  }

  /** Deleting keeps the remaining notes in their order: notes before and
      after the removed one stay before and after each other. */
  lemma DeleteLocalKeepsOrder(before: seq<Notes.Note>, n: Notes.Note, after: seq<Notes.Note>, draft: string, error: string)
    requires forall i :: 0 <= i < |before| ==> before[i].id != n.id
    requires forall i :: 0 <= i < |after| ==> after[i].id != n.id
    ensures DeleteNoteLocal(View(before + [n] + after, draft, error), n.id, true).notes == before + after
  {
    var keep := Notes.NotId(n.id);
    var s := before + [n] + after;
    var k := |before|;
    forall i | 0 <= i < |s| && i != k
      ensures keep(s[i])
    {
      if i < k {
        assert s[i] == before[i];
      } else {
        assert s[i] == after[i - k - 1];
      }
    }
    FilterDropsOne(s, keep, k);
    assert s[..k] == before && s[k + 1..] == after;
  }

  /** When the page's list matches the caller's notes on the server, it still
      does after a successful create: the page appends what the server
      stored, in the place the server lists it. */
  lemma CreateKeepsListInSync(v: View, t: Notes.Table, caller: UserStore.UserId)
    requires v.notes == Notes.GetNotes(t, caller)
    requires !IsBlank(v.draft)
    ensures var r := Notes.CreateNote(t, caller, CreateRequest(v.draft));
      && r.0.Created?
      && CreateNoteLocal(v, Some(r.0.note)).notes == Notes.GetNotes(r.1, caller)
  {
    var text := CreateRequest(v.draft);
    Notes.CreateThenList(t, caller, text.value, caller);
  }

  /** The same after a successful delete of one of the caller's notes. */
  lemma DeleteKeepsListInSync(v: View, t: Notes.Table, caller: UserStore.UserId, id: Notes.NoteId)
    requires Notes.Valid(t) && v.notes == Notes.GetNotes(t, caller)
    requires Notes.OwnsNote(t, caller, id)
    ensures var r := Notes.DeleteNote(t, caller, id);
      && r.0 == Notes.Deleted
      && DeleteNoteLocal(v, id, true).notes == Notes.GetNotes(r.1, caller)
  {
    var r := Notes.DeleteNote(t, caller, id);
    var k :| 0 <= k < |t.rows| && t.rows[k].id == id && t.rows[k].owner == caller
      && r.1.rows == t.rows[..k] + t.rows[k + 1..];
    Notes.OnlyRowWithId(t, k);
    FilterCommute(t.rows, Notes.OwnedBy(caller), Notes.NotId(id));
  }
}

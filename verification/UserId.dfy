/** parseUserID (parse_user_id.go): a seven-state scanner for "Full Name (Comment) <email>". */
module UserId {
  import opened Bytes

  datatype Span = Span(start: nat, end: nat)

  /** The local variables n, c and e. A part that was not met keeps the zero span. */
  datatype Spans = Spans(name: Span, comment: Span, email: Span)

  const ABSENT := Span(0, 0)

  datatype Parts = Parts(name: string, comment: string, email: string)

  // ---------------------------------------------------------------- strings.TrimSpace

  /** unicode.IsSpace. */
  predicate IsSpace(c: char) {
    || '\t' <= c <= '\r'
    || c == ' '
    || c in {'\U{85}', '\U{A0}', '\U{1680}', '\U{2028}', '\U{2029}', '\U{202F}', '\U{205F}', '\U{3000}'}
    || '\U{2000}' <= c <= '\U{200A}'
  }

  function TrimLeft(s: string): string {
    if s != [] && IsSpace(s[0]) then TrimLeft(s[1..]) else s
  }

  function TrimRight(s: string): string {
    if s != [] && IsSpace(s[|s| - 1]) then TrimRight(s[..|s| - 1]) else s
  }

  function TrimSpace(s: string): string {
    TrimRight(TrimLeft(s))
  }

  predicate Trimmed(s: string) {
    s == [] || (!IsSpace(s[0]) && !IsSpace(s[|s| - 1]))
  }

  /** No character of `ds` in `s`. */
  predicate Free(s: string, ds: set<char>) {
    forall i :: 0 <= i < |s| ==> s[i] !in ds
  }

  lemma {:induction false} TrimLeftShape(s: string, ds: set<char>)
    ensures var t := TrimLeft(s);
            && |t| <= |s| && (t != [] ==> !IsSpace(t[0])) && (Free(s, ds) ==> Free(t, ds))
            && (t == s <==> s == [] || !IsSpace(s[0]))
  {
    hide IsSpace;
    if s == [] || !IsSpace(s[0]) {
    } else {
      TrimLeftShape(s[1..], ds);
    }
  }

  lemma {:induction false} TrimRightShape(s: string, ds: set<char>)
    ensures var t := TrimRight(s);
            && t <= s && (t != [] ==> t[0] == s[0] && !IsSpace(t[|t| - 1])) && (Free(s, ds) ==> Free(t, ds))
            && (t == s <==> s == [] || !IsSpace(s[|s| - 1]))
  {
    hide IsSpace;
    if s == [] || !IsSpace(s[|s| - 1]) {
    } else {
      TrimRightShape(s[..|s| - 1], ds);
    }
  }

  /** Trimming gives a trimmed string, and leaves a string alone exactly when it is one already. */
  lemma TrimShape(s: string, ds: set<char>)
    ensures Trimmed(TrimSpace(s)) && |TrimSpace(s)| <= |s|
    ensures Free(s, ds) ==> Free(TrimSpace(s), ds)
    ensures TrimSpace(s) == s <==> Trimmed(s)
  {
    hide IsSpace;
    TrimLeftShape(s, ds);
    TrimRightShape(TrimLeft(s), ds);
  }

  predicate AllSpace(s: string) {
    forall i :: 0 <= i < |s| ==> IsSpace(s[i])
  }

  lemma {:induction false} TrimLeftRest(s: string) returns (front: string)
    ensures s == front + TrimLeft(s) && AllSpace(front)
  {
    hide IsSpace;
    if s == "" || !IsSpace(s[0]) {
      front := "";
    } else {
      var more := TrimLeftRest(s[1..]);
      front := [s[0]] + more;
    }
  }

  lemma {:induction false} TrimRightRest(s: string) returns (back: string)
    ensures s == TrimRight(s) + back && AllSpace(back)
  {
    hide IsSpace;
    if s == "" || !IsSpace(s[|s| - 1]) {
      back := "";
    } else {
      var more := TrimRightRest(s[..|s| - 1]);
      back := more + [s[|s| - 1]];
    }
  }

  /** `s` is `t` between spaces. */
  ghost predicate Between(s: string, t: string) {
    exists front, back :: s == front + t + back && AllSpace(front) && AllSpace(back)
  }

  /** Trimming takes off the spaces on both sides and nothing else; what is left has none at its ends. */
  lemma TrimExactly(s: string, t: string)
    ensures t == TrimSpace(s) <==> Trimmed(t) && Between(s, t)
  {
    hide IsSpace, TrimLeft, TrimRight, Trimmed, AllSpace;
    var front := TrimLeftRest(s);
    var back := TrimRightRest(TrimLeft(s));
    TrimShape(s, {});
    assert s == front + TrimSpace(s) + back;
    if Trimmed(t) && Between(s, t) {
      var f, b :| s == f + t + b && AllSpace(f) && AllSpace(b);
      OneMiddle(f, t, b, front, TrimSpace(s), back);
    }
  }

  /** The trimmed middle between spaces is determined. */
  lemma OneMiddle(f: string, t: string, b: string, g: string, u: string, c: string)
    requires f + t + b == g + u + c && AllSpace(f) && AllSpace(b) && AllSpace(g) && AllSpace(c)
    requires Trimmed(t) && Trimmed(u)
    ensures t == u
  {
    hide IsSpace, Trimmed;
    var s := f + t + b;
    NoMiddle(s, f, t, b);
    NoMiddle(s, g, u, c);
    if t != "" && u != "" {
      SameEnds(s, f, t, b, g, u, c);
      assert t == s[|f|..|f| + |t|] && u == s[|g|..|g| + |u|];
    }
  }

  lemma NoMiddle(s: string, f: string, t: string, b: string)
    requires s == f + t + b && AllSpace(f) && AllSpace(b) && Trimmed(t)
    ensures AllSpace(s) <==> t == ""
  {
    hide IsSpace;
    if t != "" {
      assert s[|f|] == t[0];
    }
  }

  lemma SameEnds(s: string, f: string, t: string, b: string, g: string, u: string, c: string)
    requires s == f + t + b == g + u + c && AllSpace(f) && AllSpace(b) && AllSpace(g) && AllSpace(c)
    requires Trimmed(t) && Trimmed(u) && t != "" && u != ""
    ensures |f| == |g| && |t| == |u|
  {
    hide IsSpace;
    assert s[|f|] == t[0] && s[|g|] == u[0];
    assert s[|f| + |t| - 1] == t[|t| - 1] && s[|g| + |u| - 1] == u[|u| - 1];
  }

  lemma TrimFinalSpace(s: string)
    ensures Trimmed(s) ==> TrimSpace(s + " ") == s
  {
    if Trimmed(s) {
      if s == [] {
        assert s + " " == " " && " "[1..] == "";
      } else {
        assert TrimLeft(s + " ") == s + " ";
        assert (s + " ")[..|s|] == s;
        TrimShape(s, {});
      }
    }
  }

  // ---------------------------------------------------------------- the declarative split

  /** The first position from `from` on that holds one of `ds`, else the length. */
  function First(s: string, from: nat, ds: set<char>): (i: nat)
    requires from <= |s|
    ensures from <= i <= |s| && (i < |s| ==> s[i] in ds)
    ensures forall j :: from <= j < i ==> s[j] !in ds
    decreases |s| - from
  {
    if from == |s| || s[from] in ds then from else First(s, from + 1, ds)
  }

  /** A part that opens right before `start`; nothing after the opening sign means no part. */
  function PartFrom(s: string, start: nat, close: set<char>): Span
    requires start <= |s|
  {
    if start == |s| then ABSENT else Span(start, First(s, start, close))
  }

  /** The email after the first '<' from `from` on. */
  function EmailFrom(s: string, from: nat): Span
    requires from <= |s|
  {
    var open := First(s, from, {'<'});
    if open == |s| then ABSENT else PartFrom(s, open + 1, {'>'})
  }

  /**
   * The name ends at the first '(' or '<'; a comment runs from '(' to the first ')'; the email
   * runs from the next '<' to the first '>'.
   */
  function Split(s: string): Spans {
    var n := First(s, 0, {'(', '<'});
    var name := Span(0, n);
    if n == |s| || s[n] == '<' then Spans(name, ABSENT, EmailFrom(s, n))
    else
      var comment := PartFrom(s, n + 1, {')'});
      if comment == ABSENT || comment.end == |s| then Spans(name, comment, ABSENT)
      else Spans(name, comment, EmailFrom(s, comment.end + 1))
  }

  lemma FirstFree(s: string, from: nat, ds: set<char>)
    requires from <= |s|
    ensures Free(s[from..First(s, from, ds)], ds)
  {
  }

  lemma PartShape(s: string, start: nat, close: char)
    requires 1 <= start <= |s|
    ensures var p := PartFrom(s, start, {close});
            && p.start <= p.end <= |s|
            && (p != ABSENT ==>
                  p.start == start && Free(s[start..p.end], {close}) && (p.end < |s| ==> s[p.end] == close))
  {
    hide First, Free;
    FirstFree(s, start, {close});
  }

  lemma EmailShape(s: string, from: nat)
    requires from <= |s|
    ensures var p := EmailFrom(s, from);
            && p.start <= p.end <= |s|
            && (p != ABSENT ==>
                  && from < p.start && s[p.start - 1] == '<' && Free(s[p.start..p.end], {'>'})
                  && (p.end < |s| ==> s[p.end] == '>'))
  {
    hide PartFrom, First, Free;
    var at := First(s, from, {'<'});
    if at < |s| {
      PartShape(s, at + 1, '>');
    }
  }

  /** In bounds, ordered, disjoint, and set off by their signs. */
  lemma SplitShape(s: string)
    ensures var p := Split(s);
            && p.name.start == 0 && p.name.end <= |s| && Free(s[..p.name.end], {'(', '<'})
            && (p.comment != ABSENT ==>
                  && p.comment.start == p.name.end + 1 <= p.comment.end <= |s| && s[p.name.end] == '('
                  && Free(s[p.comment.start..p.comment.end], {')'})
                  && (p.comment.end < |s| ==> s[p.comment.end] == ')'))
            && (p.email != ABSENT ==>
                  && p.name.end < p.email.start <= p.email.end <= |s|
                  && p.comment.end < p.email.start
                  && s[p.email.start - 1] == '<' && Free(s[p.email.start..p.email.end], {'>'})
                  && (p.email.end < |s| ==> s[p.email.end] == '>'))
  {
    hide PartFrom, EmailFrom, First, Free;
    var n := First(s, 0, {'(', '<'});
    FirstFree(s, 0, {'(', '<'});
    assert s[0..n] == s[..n];
    EmailShape(s, n);
    if n < |s| && s[n] == '(' {
      PartShape(s, n + 1, ')');
      var comment := PartFrom(s, n + 1, {')'});
      if comment.end < |s| {
        EmailShape(s, comment.end + 1);
      }
    }
  }

  /** The first '<' from `from` on is at `open`, and something follows it. */
  predicate OpensAt(s: string, from: nat, open: nat) {
    from <= open && open + 1 < |s| && s[open] == '<' && Free(s[from..open], {'<'})
  }

  /** Where the search for the email begins: at the '<' after the name, or behind a closed comment. */
  function EmailSearch(s: string, name: nat, comment: Span): (from: Option<nat>)
    requires name <= |s| && comment.end <= |s|
    ensures from.Some? ==> from.value <= |s|
  {
    if name < |s| && s[name] == '<' then Some(name)
    else if name < |s| && comment != ABSENT && comment.end < |s| then Some(comment.end + 1)
    else None
  }

  /** The email is there exactly when a search begins and a '<' with something behind it is found. */
  ghost predicate EmailAt(s: string, from: Option<nat>, email: Span) {
    if from.None? then email == ABSENT
    else
      && (email != ABSENT <==> exists open :: OpensAt(s, from.value, open))
      && (email != ABSENT ==> email.start >= 1 && OpensAt(s, from.value, email.start - 1))
  }

  /** When each part is there: the name ends at the first sign, and the email begins at the first '<' from there. */
  lemma SplitPresence(s: string)
    ensures var p := Split(s);
            && p.name.end <= |s| && p.comment.end <= |s|
            && (p.name.end < |s| ==> s[p.name.end] in {'(', '<'})
            && (p.comment != ABSENT <==> p.name.end + 1 < |s| && s[p.name.end] == '(')
            && EmailAt(s, EmailSearch(s, p.name.end, p.comment), p.email)
  {
    hide PartFrom, EmailFrom, First, Free, OpensAt, EmailAt;
    SplitShape(s);
    var n := First(s, 0, {'(', '<'});
    NoEmail(s);
    if n == |s| {
    } else if s[n] == '<' {
      EmailPresence(s, n);
    } else {
      PartPresence(s, n + 1, {')'});
      var comment := PartFrom(s, n + 1, {')'});
      if comment.end < |s| {
        EmailPresence(s, comment.end + 1);
      }
    }
  }

  lemma NoEmail(s: string)
    ensures EmailAt(s, None, ABSENT) && EmailFrom(s, |s|) == ABSENT
  {
  }

  lemma PartPresence(s: string, start: nat, close: set<char>)
    requires 1 <= start <= |s|
    ensures var p := PartFrom(s, start, close);
            p.end <= |s| && (p != ABSENT <==> start < |s|) && (p != ABSENT ==> p.start == start)
  {
  }

  lemma EmailPresence(s: string, from: nat)
    requires from <= |s|
    ensures EmailAt(s, Some(from), EmailFrom(s, from))
  {
    hide PartFrom;
    var at := First(s, from, {'<'});
    FirstFree(s, from, {'<'});
    if at < |s| {
      PartPresence(s, at + 1, {'>'});
      assert at + 1 < |s| ==> OpensAt(s, from, at);
    }
    if open :| OpensAt(s, from, open) {
      FirstOpen(s, from, open);
    }
  }

  lemma FirstOpen(s: string, from: nat, open: nat)
    requires OpensAt(s, from, open)
    ensures First(s, from, {'<'}) == open
  {
    forall j | from <= j < open
      ensures s[j] != '<'
    {
      assert s[j] == s[from..open][j - from];
    }
  }

  function Slice(s: string, p: Span): string
    requires p.start <= p.end <= |s|
  {
    s[p.start..p.end]
  }

  function ParseUserId(s: string): Parts {
    SplitShape(s);
    var p := Split(s);
    Parts(TrimSpace(Slice(s, p.name)), TrimSpace(Slice(s, p.comment)), TrimSpace(Slice(s, p.email)))
  }

  // ---------------------------------------------------------------- the scanner as written

  /** What each state has found out after `i` characters. */
  predicate InState(s: string, state: int, i: nat, n: Span, c: Span, e: Span) {
    i <= |s| &&
    var p := Split(s);
    match state
    case 0 => i == 0 && n == c == e == ABSENT
    case 1 => n == c == e == ABSENT && p.name.end >= i
    case 2 => n == p.name && c == e == ABSENT && InComment(s) && n.end + 1 == i
    case 3 => n == p.name && e == ABSENT && InComment(s) && c == Span(n.end + 1, 0)
        && c.start < i <= First(s, c.start, {')'})
    case 4 => n == p.name && c == p.comment && e == ABSENT && c.end < i && p.email == EmailFrom(s, i)
    case 5 => n == p.name && c == p.comment && e == ABSENT && p.email == PartFrom(s, i, {'>'})
    case 6 => n == p.name && c == p.comment && e.end == 0 && e.start < i && p.email == Span(e.start, First(s, i, {'>'}))
    case 7 => n == p.name && c == p.comment && e == p.email
    case _ => false
  }

  /** The name is followed by a comment. */
  predicate InComment(s: string) {
    var n := Split(s).name.end;
    n < |s| && s[n] == '('
  }

  lemma NameStep(s: string, state: int, i: nat, n: Span, c: Span, e: Span)
    requires state in {0, 1} && i < |s| && InState(s, state, i, n, c, e)
    ensures n.start == 0 && n.end == 0 && (state == 0 ==> i == 0)
    ensures s[i] == '(' ==> InState(s, 2, i + 1, Span(0, i), c, e)
    ensures s[i] == '<' ==> InState(s, 5, i + 1, Span(0, i), c, e)
    ensures s[i] != '(' && s[i] != '<' ==> InState(s, 1, i + 1, n, c, e)
  {
  }

  lemma CommentStep(s: string, state: int, i: nat, n: Span, c: Span, e: Span)
    requires state in {2, 3} && i < |s| && InState(s, state, i, n, c, e)
    ensures var start := if state == 2 then i else c.start;
            && (state == 2 ==> c == ABSENT) && (state == 3 ==> c.end == 0)
            && (s[i] == ')' ==> InState(s, 4, i + 1, n, Span(start, i), e))
            && (s[i] != ')' ==> InState(s, 3, i + 1, n, Span(start, 0), e))
  {
    hide EmailFrom;
  }

  lemma BetweenStep(s: string, i: nat, n: Span, c: Span, e: Span)
    requires i < |s| && InState(s, 4, i, n, c, e)
    ensures InState(s, if s[i] == '<' then 5 else 4, i + 1, n, c, e)
  {
    hide Split;
  }

  lemma EmailStep(s: string, state: int, i: nat, n: Span, c: Span, e: Span)
    requires state in {5, 6} && i < |s| && InState(s, state, i, n, c, e)
    ensures var start := if state == 5 then i else e.start;
            && (state == 5 ==> e == ABSENT) && e.end == 0
            && (s[i] == '>' ==> InState(s, 7, i + 1, n, c, Span(start, i)))
            && (s[i] != '>' ==> InState(s, 6, i + 1, n, c, Span(start, 0)))
  {
    hide Split;
  }

  /** The state at the end, with the part it ended in closed there. */
  lemma ScanEnds(s: string, state: int, n: Span, c: Span, e: Span)
    requires InState(s, state, |s|, n, c, e)
    ensures Split(s) == Spans(if state == 1 then n.(end := |s|) else n,
                              if state == 3 then c.(end := |s|) else c,
                              if state == 6 then e.(end := |s|) else e)
  {
  }

  /** parseUserID (parse_user_id.go:43-112). */
  method ScanUserId(id: string) returns (spans: Spans, parts: Parts)
    ensures spans == Split(id) && parts == ParseUserId(id)
  {
    hide TrimSpace, InState, Split;
    var n, c, e := ABSENT, ABSENT, ABSENT;
    var state := 0;
    var offset := 0;
    ScanStarts(id);
    while offset < |id|
      invariant 0 <= offset <= |id|
      invariant 0 <= state <= 7 && InState(id, state, offset, n, c, e)
    {
      var rune := id[offset];
      if state == 0 || state == 1 {
        NameStep(id, state, offset, n, c, e);
        if state == 0 {
          n := n.(start := offset);
          state := 1;
        }
        if rune == '(' {
          state := 2;
          n := n.(end := offset);
        } else if rune == '<' {
          state := 5;
          n := n.(end := offset);
        }
      } else if state == 2 || state == 3 {
        CommentStep(id, state, offset, n, c, e);
        if state == 2 {
          c := c.(start := offset);
          state := 3;
        }
        if rune == ')' {
          state := 4;
          c := c.(end := offset);
        }
      } else if state == 4 {
        BetweenStep(id, offset, n, c, e);
        if rune == '<' {
          state := 5;
        }
      } else if state == 5 || state == 6 {
        EmailStep(id, state, offset, n, c, e);
        if state == 5 {
          e := e.(start := offset);
          state := 6;
        }
        if rune == '>' {
          state := 7;
          e := e.(end := offset);
        }
      } else {
        AfterStep(id, state, offset, n, c, e);
      }
      offset := offset + 1;
    }
    ScanEnds(id, state, n, c, e);
    if state == 1 {
      n := n.(end := |id|);
    } else if state == 3 {
      c := c.(end := |id|);
    } else if state == 6 {
      e := e.(end := |id|);
    }
    spans := Spans(n, c, e);
    SplitShape(id);
    parts := Parts(TrimSpace(id[n.start..n.end]), TrimSpace(id[c.start..c.end]), TrimSpace(id[e.start..e.end]));
  }

  lemma ScanStarts(s: string)
    ensures InState(s, 0, 0, ABSENT, ABSENT, ABSENT)
  {
    hide Split;
  }

  lemma AfterStep(s: string, state: int, i: nat, n: Span, c: Span, e: Span)
    requires state == 7 && i < |s| && InState(s, state, i, n, c, e)
    ensures InState(s, 7, i + 1, n, c, e)
  {
    hide Split;
  }

  // ---------------------------------------------------------------- formatting

  function Format(p: Parts): string {
    p.name + " (" + p.comment + ") <" + p.email + ">"
  }

  /** Parts that their delimiters can hold. */
  predicate Plain(p: Parts) {
    && Trimmed(p.name) && Trimmed(p.comment) && Trimmed(p.email)
    && Free(p.name, {'(', '<'}) && Free(p.comment, {')'}) && Free(p.email, {'>'})
  }

  lemma FirstIs(s: string, from: nat, ds: set<char>, part: string)
    requires from + |part| < |s| && s[from..from + |part|] == part && Free(part, ds) && s[from + |part|] in ds
    ensures First(s, from, ds) == from + |part|
  {
    forall j | from <= j < from + |part|
      ensures s[j] !in ds
    {
      assert s[j] == part[j - from];
    }
  }

  lemma SpaceFree(s: string, ds: set<char>)
    requires Free(s, ds) && ' ' !in ds
    ensures Free(s + " ", ds)
  {
  }

  lemma FormatLayout(p: Parts, s: string)
    requires s == Format(p)
    ensures var n := |p.name| + 1;
            var c := n + 1;
            var d := c + |p.comment|;
            var e := d + 3;
            && |s| == e + |p.email| + 1
            && s[0..n] == p.name + " " && s[n] == '(' && s[c..d] == p.comment && s[d] == ')'
            && s[d + 1..d + 2] == " " && s[d + 2] == '<' && s[e..e + |p.email|] == p.email && s[e + |p.email|] == '>'
  {
  }

  lemma FormatNameComment(p: Parts, s: string)
    requires s == Format(p) && Free(p.name, {'(', '<'}) && Free(p.comment, {')'})
    ensures First(s, 0, {'(', '<'}) == |p.name| + 1
    ensures |p.name| + 2 <= |s| && First(s, |p.name| + 2, {')'}) == |p.name| + 2 + |p.comment|
  {
    hide Format, First, Free;
    FormatLayout(p, s);
    SpaceFree(p.name, {'(', '<'});
    FirstIs(s, 0, {'(', '<'}, p.name + " ");
    FirstIs(s, |p.name| + 2, {')'}, p.comment);
  }

  lemma FormatEmail(p: Parts, s: string)
    requires s == Format(p) && Free(p.email, {'>'})
    ensures var d := |p.name| + 2 + |p.comment|;
            && d + 3 <= |s| && First(s, d + 1, {'<'}) == d + 2 && First(s, d + 3, {'>'}) == d + 3 + |p.email|
  {
    hide Format, First;
    FormatLayout(p, s);
    var d := |p.name| + 2 + |p.comment|;
    FirstIs(s, d + 1, {'<'}, " ");
    FirstIs(s, d + 3, {'>'}, p.email);
  }

  lemma FormatSplit(p: Parts)
    requires Free(p.name, {'(', '<'}) && Free(p.comment, {')'}) && Free(p.email, {'>'})
    ensures var n := |p.name| + 1;
            var d := n + 1 + |p.comment|;
            var e := d + 3;
            Split(Format(p)) == Spans(Span(0, n), Span(n + 1, d), Span(e, e + |p.email|))
  {
    hide Format, First, Split, Free;
    var s := Format(p);
    var n := |p.name| + 1;
    var d := n + 1 + |p.comment|;
    FormatLayout(p, s);
    FormatNameComment(p, s);
    FormatEmail(p, s);
    SplitAt(s, n, d, d + 2, d + 3 + |p.email|);
  }

  lemma SplitAt(s: string, n: nat, d: nat, o: nat, f: nat)
    requires n < d < o < f < |s| && s[n] == '('
    requires First(s, 0, {'(', '<'}) == n && First(s, n + 1, {')'}) == d && First(s, d + 1, {'<'}) == o
      && First(s, o + 1, {'>'}) == f
    ensures Split(s) == Spans(Span(0, n), Span(n + 1, d), Span(o + 1, f))
  {
    hide First;
  }

  /** Whatever the input, the parts are trimmed and free of the signs that end them. */
  lemma ParsedPlain(s: string)
    ensures Plain(ParseUserId(s))
  {
    hide IsSpace, TrimSpace, Trimmed, Split;
    SplitShape(s);
    var p := Split(s);
    assert s[0..0] == "";
    TrimShape(Slice(s, p.name), {'(', '<'});
    TrimShape(Slice(s, p.comment), {')'});
    TrimShape(Slice(s, p.email), {'>'});
  }

  /**
   * Formatting and parsing give the three parts back exactly when each is trimmed and free of the
   * sign that ends it.
   */
  lemma FormatParse(p: Parts)
    ensures ParseUserId(Format(p)) == p <==> Plain(p)
  {
    hide IsSpace, TrimSpace, Trimmed, Split, Format;
    ParsedPlain(Format(p));
    if Plain(p) {
      FormatSplit(p);
      FormatLayout(p, Format(p));
      TrimFinalSpace(p.name);
      TrimShape(p.comment, {});
      TrimShape(p.email, {});
    }
  }

  /** A parsed user id, written in the standard form, parses to the same parts. */
  lemma ParseNormalises(s: string)
    ensures ParseUserId(Format(ParseUserId(s))) == ParseUserId(s)
  {
    hide ParseUserId, Plain;
    ParsedPlain(s);
    FormatParse(ParseUserId(s));
  }
}

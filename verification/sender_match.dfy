/** The sender relevance check of `email_utils.py`: a search for
    `^From:.*<([^>]+)>` under IGNORECASE and MULTILINE over the raw email
    text, whose stripped capture is looked up in the allow-list.

    The regular expression is given meaning by the ghost predicates
    `MatchAt` and `SearchResult`; `Search` is a scanner proved to find
    exactly the match Python's backtracking `re.search` reports. */
module SenderMatch {
  import opened Wrappers
  import PyStr

  /** The header name, in the lower case the comparison folds to */
  const Header: string := "from:"

  /** ASCII upper-to-lower mapping. Under IGNORECASE the letters of `From:`
      have no case partners outside ASCII, so this folding is exact here. */
  function AsciiLower(c: char): (r: char)
    ensures !('A' <= r <= 'Z')
    ensures r != c ==> 'A' <= c <= 'Z' && 'a' <= r <= 'z' && r as int - c as int == 'a' as int - 'A' as int
  {
    if 'A' <= c <= 'Z' then (c as int + 32) as char else c
  }

  /** `^` under MULTILINE: the start of the text or just after a line feed */
  predicate LineStart(s: string, p: int) {
    0 <= p <= |s| && (p == 0 || s[p - 1] == '\n')
  }

  /** `From:` in any letter case at position `p` */
  predicate HeaderAt(s: string, p: int) {
    0 <= p && p + |Header| <= |s| &&
    forall k :: 0 <= k < |Header| ==> AsciiLower(s[p + k]) == Header[k]
  }

  /** `<([^>]+)>` with the `<` at `q` and the `>` at `j`: a non-empty run of
      characters other than `>` (line feeds included) between them. */
  ghost predicate Closes(s: string, q: int, j: int) {
    && 0 <= q && q + 1 < j < |s|
    && s[q] == '<' && s[j] == '>'
    && forall i :: q < i < j ==> s[i] != '>'
  }

  /** One way the whole pattern matches: `^` at `p`, `From:`, then `.*`
      (no line feed) up to the `<` at `q`, then the capture up to `j`. */
  ghost predicate MatchAt(s: string, p: int, q: int, j: int) {
    && LineStart(s, p)
    && HeaderAt(s, p)
    && p + |Header| <= q
    && Closes(s, q, j)
    && (forall i :: p + |Header| <= i < q ==> s[i] != '\n')
  }

  /** The line starting at `p` (if it is one) admits no match. */
  ghost predicate NoMatchOnLine(s: string, p: int) {
    forall q, j :: !MatchAt(s, p, q, j)
  }

  /** The match `re.search` reports: the earliest line start admitting a
      match and, on that line, the rightmost `<` (greedy `.*`). */
  ghost predicate SearchResult(s: string, p: int, q: int, j: int) {
    && MatchAt(s, p, q, j)
    && (forall p' :: p' < p ==> NoMatchOnLine(s, p'))
    && (forall q', j' :: q < q' ==> !MatchAt(s, p, q', j'))
  }

  /** Positions of a match: line start, `<` and `>` */
  datatype Span = Span(lineStart: nat, open: nat, close: nat)

  /** The first occurrence of `c` at or after `i`, or `|s|` if none */
  function NextIndexOf(s: string, i: int, c: char): (r: nat)
    requires 0 <= i <= |s|
    ensures i <= r <= |s|
    ensures r < |s| ==> s[r] == c
    ensures forall k :: i <= k < r ==> s[k] != c
    decreases |s| - i
  {
    if i == |s| || s[i] == c then i else NextIndexOf(s, i + 1, c)
  }

  /** A `<` closes at most one way: at the first `>` after it. */
  lemma ClosesAtFirstGt(s: string, q: int, j: int)
    requires Closes(s, q, j)
    ensures j == NextIndexOf(s, q + 1, '>')
  {
  }

  /** The rightmost `<` in `s[lo..hi]` that `[^>]+>` can close */
  function LastClosable(s: string, lo: int, hi: int): (r: Option<nat>)
    requires 0 <= lo <= hi <= |s|
    ensures r.Some? ==> lo <= r.value < hi && Closes(s, r.value, NextIndexOf(s, r.value + 1, '>'))
    ensures r.Some? ==> forall q, j :: r.value < q < hi ==> !Closes(s, q, j)
    ensures r.None? ==> forall q, j :: lo <= q < hi ==> !Closes(s, q, j)
    decreases hi - lo
  {
    if hi == lo then None
    else if s[hi - 1] == '<' && hi < NextIndexOf(s, hi, '>') < |s| then Some(hi - 1)
    else LastClosable(s, lo, hi - 1)
  }

  /** No line starts strictly inside a line, nor at its terminating line feed. */
  lemma NoLineStartInside(s: string, p: int, e: int, p': int)
    requires 0 <= p <= e <= |s|
    requires forall k :: p <= k < e ==> s[k] != '\n'
    requires p < p' <= e
    ensures !LineStart(s, p')
  {
  }

  /** The header contains no line feed, so the line from `p` extends past it. */
  lemma HeaderWithinLine(s: string, p: int, k: int)
    requires HeaderAt(s, p) && p <= k < p + |Header|
    ensures s[k] != '\n'
  {
    assert AsciiLower(s[k]) == Header[k - p];
  }

  /** The `<` the pattern uses on the line starting at `p`, if that line
      admits a match at all */
  function LineMatch(s: string, p: int): (r: Option<nat>)
    requires LineStart(s, p)
    ensures r.Some? ==> r.value < |s| && MatchAt(s, p, r.value, NextIndexOf(s, r.value + 1, '>'))
    ensures r.Some? ==> forall q, j :: r.value < q ==> !MatchAt(s, p, q, j)
    ensures r.None? ==> NoMatchOnLine(s, p)
  {
    var e := NextIndexOf(s, p, '\n');
    LineMatchesOnlyBeforeEnd(s, p, e);
    if HeaderAt(s, p) then
      assert p + |Header| <= e by {
        if e < p + |Header| {
          HeaderWithinLine(s, p, e);
        }
      }
      LastClosable(s, p + |Header|, e)
    else
      None
  }

  /** `r` is what `re.search` reports when only line starts from `p` on
      are tried: the first line admitting a match and the rightmost `<` on
      it, or `None` when no such line admits one */
  ghost predicate SearchedFrom(s: string, p: int, r: Option<Span>) {
    match r
    case Some(m) =>
      && p <= m.lineStart
      && MatchAt(s, m.lineStart, m.open, m.close)
      && (forall p' :: p <= p' < m.lineStart ==> NoMatchOnLine(s, p'))
      && (forall q, j :: m.open < q ==> !MatchAt(s, m.lineStart, q, j))
    case None =>
      forall p' :: p <= p' ==> NoMatchOnLine(s, p')
  }

  /** `re.search` restricted to line starts at or after `p` */
  function SearchFrom(s: string, p: int): (r: Option<Span>)
    requires LineStart(s, p)
    ensures SearchedFrom(s, p, r)
    decreases |s| - p
  {
    match LineMatch(s, p)
    case Some(q) =>
      var r := Some(Span(p, q, NextIndexOf(s, q + 1, '>')));
      assert SearchedFrom(s, p, r);
      r
    case None =>
      var e := NextIndexOf(s, p, '\n');
      if e == |s| then
        SearchLastLine(s, p);
        None
      else
        var r := SearchFrom(s, e + 1);
        SearchNextLine(s, p, r);
        r
  }

  /** The last line admits no match: nothing from `p` on does. */
  lemma SearchLastLine(s: string, p: int)
    requires LineStart(s, p) && LineMatch(s, p).None?
    requires NextIndexOf(s, p, '\n') == |s|
    ensures SearchedFrom(s, p, None)
  {
    LineHasNoOtherStart(s, p, |s|);
    NoMatchPastEnd(s);
  }

  /** A line admitting no match passes the search on to the next line. */
  lemma SearchNextLine(s: string, p: int, r: Option<Span>)
    requires LineStart(s, p) && LineMatch(s, p).None?
    requires NextIndexOf(s, p, '\n') < |s|
    requires SearchedFrom(s, NextIndexOf(s, p, '\n') + 1, r)
    ensures SearchedFrom(s, p, r)
  {
    LineHasNoOtherStart(s, p, NextIndexOf(s, p, '\n'));
  }

  /** Nothing matches from a position that is not a line start. */
  lemma NoMatchOffLineStart(s: string, p: int)
    requires !LineStart(s, p)
    ensures NoMatchOnLine(s, p)
  {
  }

  lemma NoMatchPastEnd(s: string)
    ensures forall p :: |s| < p ==> NoMatchOnLine(s, p)
  {
    forall p | |s| < p
      ensures NoMatchOnLine(s, p)
    {
      NoMatchOffLineStart(s, p);
    }
  }

  /** Between a line start and the end of its line there is no other line start. */
  lemma LineHasNoOtherStart(s: string, p: int, e: int)
    requires LineStart(s, p) && e == NextIndexOf(s, p, '\n')
    ensures forall p' :: p < p' <= e ==> NoMatchOnLine(s, p')
  {
    forall p' | p < p' <= e
      ensures NoMatchOnLine(s, p')
    {
      NoLineStartInside(s, p, e, p');
      NoMatchOffLineStart(s, p');
    }
  }

  /** A match on the line at `p` uses a `<` on that line, after the header. */
  lemma LineMatchesOnlyBeforeEnd(s: string, p: int, e: int)
    requires LineStart(s, p) && e == NextIndexOf(s, p, '\n')
    ensures forall q, j :: MatchAt(s, p, q, j) ==> p + |Header| <= q < e
  {
    forall q, j | MatchAt(s, p, q, j)
      ensures q < e
    {
      if e <= q {
        if e < p + |Header| {
          HeaderWithinLine(s, p, e);
        }
      }
    }
  }

  /** `re.search(r"^From:.*<([^>]+)>", s, re.IGNORECASE | re.MULTILINE)` */
  function Search(s: string): (r: Option<Span>)
    ensures r.Some? ==> SearchResult(s, r.value.lineStart, r.value.open, r.value.close)
    ensures r.None? ==> forall p, q, j :: !MatchAt(s, p, q, j)
  {
    var r := SearchFrom(s, 0);
    assert r.None? ==> forall p, q, j :: !MatchAt(s, p, q, j) by {
      if r.None? {
        forall p, q, j
          ensures !MatchAt(s, p, q, j)
        {
          if 0 <= p {
            assert NoMatchOnLine(s, p);
          }
        }
      }
    }
    r
  }

  lemma NoMatchOnLineAt(s: string, p: int, q: int, j: int)
    requires NoMatchOnLine(s, p)
    ensures !MatchAt(s, p, q, j)
  {
  }

  /** `re.search` has at most one answer, so `Search` is determined by
      `SearchResult`. */
  lemma SearchResultUnique(s: string, p: int, q: int, j: int, p': int, q': int, j': int)
    requires SearchResult(s, p, q, j) && SearchResult(s, p', q', j')
    ensures p == p' && q == q' && j == j'
  {
    if p < p' {
      NoMatchOnLineAt(s, p, q, j);
    } else if p' < p {
      NoMatchOnLineAt(s, p', q', j');
    }
    assert q < q' ==> !MatchAt(s, p, q', j');
    assert q' < q ==> !MatchAt(s, p', q, j);
    ClosesAtFirstGt(s, q, j);
    ClosesAtFirstGt(s, q', j');
  }

  /** Whatever satisfies `SearchResult` is what `Search` returns. */
  lemma SearchFindsResult(s: string, p: int, q: int, j: int)
    requires SearchResult(s, p, q, j)
    ensures Search(s) == Some(Span(p, q, j))
  {
    var r := Search(s);
    assert r.Some? by {
      assert MatchAt(s, p, q, j);
    }
    SearchResultUnique(s, p, q, j, r.value.lineStart, r.value.open, r.value.close);
  }

  /** `addr` is what `match.group(1).strip()` yields on `s` */
  ghost predicate SenderIs(s: string, addr: string) {
    exists p, q, j :: SearchResult(s, p, q, j) && addr == PyStr.Strip(s[q + 1..j])
  }

  /** The stripped sender address, or `None` when the pattern does not match */
  function Sender(s: string): (r: Option<string>)
    ensures r.None? ==> forall p, q, j :: !MatchAt(s, p, q, j)
    ensures r.Some? ==> SenderIs(s, r.value)
  {
    match Search(s)
    case None => None
    case Some(m) =>
      var addr := PyStr.Strip(s[m.open + 1..m.close]);
      assert SearchResult(s, m.lineStart, m.open, m.close) && addr == PyStr.Strip(s[m.open + 1..m.close]);
      Some(addr)
  }

  /** The converse of `Sender`'s `None` clause: a text the pattern matches
      nowhere has no sender. */
  lemma NoMatchNoSender(s: string)
    requires forall p, q, j :: !MatchAt(s, p, q, j)
    ensures Sender(s) == None
  {
  }

  /** The capture of the match `SearchResult` describes is what `Sender`
      returns. */
  lemma SenderOfSearchResult(s: string, p: int, q: int, j: int)
    requires SearchResult(s, p, q, j)
    ensures Sender(s) == Some(PyStr.Strip(s[q + 1..j]))
  {
    SearchFindsResult(s, p, q, j);
    SenderOfSearch(s, Span(p, q, j));
  }

  lemma SenderOfSearch(s: string, m: Span)
    requires Search(s) == Some(m)
    ensures Sender(s) == Some(PyStr.Strip(s[m.open + 1..m.close]))
  {
  }

  /** A text has at most one sender, the one `Sender` returns. */
  lemma SenderIsSender(s: string, addr: string)
    requires SenderIs(s, addr)
    ensures Sender(s) == Some(addr)
  {
    var p, q, j :| SearchResult(s, p, q, j) && addr == PyStr.Strip(s[q + 1..j]);
    SenderOfSearchResult(s, p, q, j);
  }

  /** `should_email_be_processed(email_content, valid_emails)`: the email is
      relevant exactly when the pattern matches and its stripped capture is,
      character for character, an address of the allow-list. */
  function ShouldEmailBeProcessed(emailContent: string, validEmails: set<string>): (r: bool)
    ensures r <==> exists addr :: SenderIs(emailContent, addr) && addr in validEmails
    ensures validEmails == {} ==> !r
  {
    var sender := Sender(emailContent);
    if sender.Some? && sender.value in validEmails then
      true
    else
      assert forall addr :: SenderIs(emailContent, addr) ==> addr !in validEmails by {
        forall addr | SenderIs(emailContent, addr)
          ensures addr !in validEmails
        {
          SenderIsSender(emailContent, addr);
        }
      }
      false
  }

  /** A single line whose text does not begin with `From:` never matches,
      even when `From:` occurs later on it (as in `X-Original-From: <a@b>`). */
  lemma MidLineHeaderIgnored(s: string, validEmails: set<string>)
    requires forall k :: 0 <= k < |s| ==> s[k] != '\n'
    requires !HeaderAt(s, 0)
    ensures !ShouldEmailBeProcessed(s, validEmails)
  {
    forall p, q, j
      ensures !MatchAt(s, p, q, j)
    {
      if 0 < p <= |s| {
        assert s[p - 1] != '\n';
      }
    }
  }

  /** Two texts that differ only in the letter case of ASCII letters */
  ghost predicate CaseVariants(s: string, s': string) {
    |s| == |s'| && forall k :: 0 <= k < |s| ==> AsciiLower(s[k]) == AsciiLower(s'[k])
  }

  /** Case folding never maps another character onto `<`, `>` or a line feed. */
  lemma FoldKeepsPunctuation(c: char, c': char)
    requires AsciiLower(c) == AsciiLower(c')
    ensures c == '<' <==> c' == '<'
    ensures c == '>' <==> c' == '>'
    ensures c == '\n' <==> c' == '\n'
  {
  }

  /** IGNORECASE: the header name is matched in any letter case, so the
      match positions do not depend on case at all. */
  lemma MatchIgnoresCase(s: string, s': string, p: int, q: int, j: int)
    requires CaseVariants(s, s')
    ensures MatchAt(s, p, q, j) <==> MatchAt(s', p, q, j)
  {
    forall k | 0 <= k < |s|
      ensures (s[k] == '<' <==> s'[k] == '<') && (s[k] == '>' <==> s'[k] == '>') && (s[k] == '\n' <==> s'[k] == '\n')
    {
      FoldKeepsPunctuation(s[k], s'[k]);
    }
  }

  lemma SearchResultIgnoresCase(s: string, s': string, p: int, q: int, j: int)
    requires CaseVariants(s, s') && CaseVariants(s', s)
    requires SearchResult(s, p, q, j)
    ensures SearchResult(s', p, q, j)
  {
    MatchIgnoresCase(s, s', p, q, j);
    forall p' | p' < p
      ensures NoMatchOnLine(s', p')
    {
      forall q', j'
        ensures !MatchAt(s', p', q', j')
      {
        NoMatchOnLineAt(s, p', q', j');
        MatchIgnoresCase(s, s', p', q', j');
      }
    }
    forall q', j' | q < q'
      ensures !MatchAt(s', p, q', j')
    {
      MatchIgnoresCase(s, s', p, q', j');
    }
  }

  /** `Search` finds the same positions in texts that differ only in case. */
  lemma SearchIgnoresCase(s: string, s': string)
    requires CaseVariants(s, s')
    ensures Search(s) == Search(s')
  {
    assert CaseVariants(s', s);
    match Search(s)
    case Some(m) =>
      SearchResultIgnoresCase(s, s', m.lineStart, m.open, m.close);
      SearchFindsResult(s', m.lineStart, m.open, m.close);
    case None =>
      match Search(s')
      case Some(m) =>
        SearchResultIgnoresCase(s', s, m.lineStart, m.open, m.close);
        SearchFindsResult(s, m.lineStart, m.open, m.close);
      case None =>
  }
}

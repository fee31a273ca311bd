/**
 * The per-record text rewriter of redacty/redacty.py, lines 57-62: a
 * left-to-right `re.findall` scan with the guarded email pattern, then one
 * `str.replace` of every occurrence of each match that `anonymize_email`
 * masks.
 */
module Rewriter {
  import opened Strings
  import opened EmailPattern
  import opened Redactor

  /** One match of the scan: where it starts and how it is divided. */
  datatype Token = Token(start: nat, m: Split)

  /**
   * What each attempt of the scan may yield: at every position either no
   * match or a match ending after that position and within the text.
   */
  predicate Advances(a: seq<Option<Split>>)
  {
    forall p :: 0 <= p < |a| && a[p].Some? ==> p < a[p].value.end <= |a|
  }

  /** The result of applying the pattern at each position of s. */
  function Attempts(s: string, guard: Option<string>): (a: seq<Option<Split>>)
    ensures |a| == |s| && Advances(a)
    ensures forall p :: 0 <= p < |s| ==> a[p] == MatchAt(s, p, guard)
  {
    seq(|s|, p requires 0 <= p < |s| => MatchAt(s, p, guard))
  }

  /**
   * The matches `re.findall` reports from position p on, given the
   * attempts a: each position is tried; after a match the scan resumes
   * at its end, otherwise one position further.
   */
  function Scan(a: seq<Option<Split>>, p: nat): (ts: seq<Token>)
    requires Advances(a) && p <= |a|
    ensures forall i :: 0 <= i < |ts| ==> p <= ts[i].start < ts[i].m.end <= |a|
    ensures forall i, j :: 0 <= i < j < |ts| ==> ts[i].m.end <= ts[j].start
    decreases |a| - p
  {
    if p == |a| then []
    else match a[p]
      case Some(m) => [Token(p, m)] + Scan(a, m.end)
      case None => Scan(a, p + 1)
  }

  /** Where the attempt fails, the scan moves one position on. */
  lemma ScanMisses(a: seq<Option<Split>>, p: nat)
    requires Advances(a) && p < |a| && a[p].None?
    ensures Scan(a, p) == Scan(a, p + 1)
  {
  }

  /** Where the attempt matches, the scan reports it and resumes at its end. */
  lemma ScanHits(a: seq<Option<Split>>, p: nat)
    requires Advances(a) && p < |a| && a[p].Some?
    ensures Scan(a, p) == [Token(p, a[p].value)] + Scan(a, a[p].value.end)
  {
  }

  /** The tokens after a hit at p: the hit itself, then those of the scan from its end. */
  lemma ScanHitAt(a: seq<Option<Split>>, p: nat, i: nat)
    requires Advances(a) && p < |a| && a[p].Some? && i < |Scan(a, p)|
    ensures if i == 0 then Scan(a, p)[i] == Token(p, a[p].value)
      else i - 1 < |Scan(a, a[p].value.end)| && Scan(a, p)[i] == Scan(a, a[p].value.end)[i - 1]
  {
    ScanHits(a, p);
  }

  /** Every reported token is the match found at its start. */
  lemma {:induction false} ScanSound(a: seq<Option<Split>>, p: nat, i: nat)
    requires Advances(a) && p <= |a| && i < |Scan(a, p)|
    ensures var t := Scan(a, p)[i]; a[t.start] == Some(t.m)
    decreases |a| - p
  {
    if a[p].None? {
      ScanMisses(a, p);
      ScanSound(a, p + 1, i);
    } else {
      ScanHitAt(a, p, i);
      if i > 0 {
        ScanSound(a, a[p].value.end, i - 1);
      }
    }
  }

  /** Positions without a match are skipped by the scan. */
  lemma {:induction false} ScanSkips(a: seq<Option<Split>>, p: nat, q: nat)
    requires Advances(a) && p <= q <= |a|
    requires forall j :: p <= j < q ==> a[j].None?
    ensures Scan(a, p) == Scan(a, q)
    decreases q - p
  {
    if p < q {
      ScanMisses(a, p);
      ScanSkips(a, p + 1, q);
    }
  }

  /** Position q lies inside one of the tokens. */
  predicate Covered(ts: seq<Token>, q: nat)
    decreases |ts|
  {
    ts != [] && (ts[0].start <= q < ts[0].m.end || Covered(ts[1..], q))
  }

  /** A position inside the match found at p is covered by its token. */
  lemma CoveredByHit(a: seq<Option<Split>>, p: nat, q: nat)
    requires Advances(a) && p < |a| && a[p].Some?
    requires p <= q < a[p].value.end
    ensures Covered(Scan(a, p), q)
  {
    ScanHits(a, p);
    assert ([Token(p, a[p].value)] + Scan(a, a[p].value.end))[0] == Token(p, a[p].value);
  }

  /** A position covered after the match found at p stays covered. */
  lemma CoveredPastHit(a: seq<Option<Split>>, p: nat, q: nat)
    requires Advances(a) && p < |a| && a[p].Some?
    requires Covered(Scan(a, a[p].value.end), q)
    ensures Covered(Scan(a, p), q)
  {
    var ts := Scan(a, a[p].value.end);
    ScanHits(a, p);
    assert ([Token(p, a[p].value)] + ts)[1..] == ts;
  }

  /**
   * The scan misses nothing: every position from p on at which an attempt
   * matches lies inside a reported token. It is the token's own start, or
   * the scan was inside an earlier match there.
   */
  lemma {:induction false} ScanCovers(a: seq<Option<Split>>, p: nat, q: nat)
    requires Advances(a) && p <= q < |a| && a[q].Some?
    ensures Covered(Scan(a, p), q)
    decreases |a| - p
  {
    if a[p].None? {
      ScanCovers(a, p + 1, q);
      ScanMisses(a, p);
    } else if a[p].value.end <= q {
      ScanCovers(a, a[p].value.end, q);
      CoveredPastHit(a, p, q);
    } else {
      CoveredByHit(a, p, q);
    }
  }

  /** The text a token spans. */
  function TokenText(s: string, t: Token): string
    requires t.start <= t.m.end <= |s|
  {
    s[t.start..t.m.end]
  }

  /** The tokens of `re.findall(email_regex, body)` with the lookahead (?!excluded). */
  function Tokens(body: string, excluded: string): (ts: seq<Token>)
    ensures forall i :: 0 <= i < |ts| ==> ts[i].start < ts[i].m.end <= |body|
    ensures forall i, j :: 0 <= i < j < |ts| ==> ts[i].m.end <= ts[j].start
  {
    Scan(Attempts(body, Some(excluded)), 0)
  }

  /** Each token is the match the pattern reaches first at its start. */
  lemma TokensSound(body: string, excluded: string, i: nat)
    requires i < |Tokens(body, excluded)|
    ensures var t := Tokens(body, excluded)[i];
      MatchAt(body, t.start, Some(excluded)) == Some(t.m) &&
      IsEmailAt(body, t.start, t.m, Some(excluded))
  {
    ScanSound(Attempts(body, Some(excluded)), 0, i);
  }

  /** Every position at which the guarded pattern matches lies inside a token. */
  lemma TokensCover(body: string, excluded: string, q: nat)
    requires q < |body| && MatchAt(body, q, Some(excluded)).Some?
    ensures Covered(Tokens(body, excluded), q)
  {
    ScanCovers(Attempts(body, Some(excluded)), 0, q);
  }

  /**
   * `re.findall(email_regex, body)` with the lookahead (?!excluded): the
   * matched substrings in scan order.
   */
  function FindAll(body: string, excluded: string): (ms: seq<string>)
    ensures var ts := Tokens(body, excluded);
      |ms| == |ts| && forall i :: 0 <= i < |ts| ==> ms[i] == TokenText(body, ts[i])
  {
    var ts := Tokens(body, excluded);
    seq(|ts|, i requires 0 <= i < |ts| => TokenText(body, ts[i]))
  }

  /**
   * Every string `re.findall` reports is the text of a match of the guarded
   * pattern: the split the engine reaches first at some position of the body.
   */
  lemma FindAllSound(body: string, excluded: string, i: nat)
    requires i < |FindAll(body, excluded)|
    ensures exists p: nat, m: Split ::
      p <= |body| && MatchAt(body, p, Some(excluded)) == Some(m) && IsEmailAt(body, p, m, Some(excluded)) &&
      FindAll(body, excluded)[i] == body[p..m.end]
  {
    var t := Tokens(body, excluded)[i];
    TokensSound(body, excluded, i);
    assert FindAll(body, excluded)[i] == body[t.start..t.m.end];
  }

  /**
   * What a scanned match looks like: it starts with a local-part
   * character and contains no `*`.
   */
  predicate IsCandidate(t: string)
  {
    |t| > 0 && InClass(t[0], Local) && '*' !in t
  }

  lemma EmailTextIsCandidate(s: string, p: nat, m: Split, guard: Option<string>)
    requires IsEmailAt(s, p, m, guard)
    ensures IsCandidate(s[p..m.end])
  {
    var t := s[p..m.end];
    forall x | 0 <= x < |t| ensures t[x] != '*' {
      assert t[x] == s[p + x];
    }
  }

  /** Every match of the scan is a candidate. */
  lemma FindAllCandidates(body: string, excluded: string)
    ensures forall i :: 0 <= i < |FindAll(body, excluded)| ==> IsCandidate(FindAll(body, excluded)[i])
  {
    var ts := Tokens(body, excluded);
    forall i | 0 <= i < |ts| ensures IsCandidate(FindAll(body, excluded)[i]) {
      TokensSound(body, excluded, i);
      EmailTextIsCandidate(body, ts[i].start, ts[i].m, Some(excluded));
    }
  }

  /**
   * A body in which the guarded pattern matches nowhere yields no matches,
   * as "this wont work, invalid.email, you kno" in the tests.
   */
  lemma FindAllEmpty(body: string, excluded: string)
    requires forall q: nat, n :: q <= |body| ==> !IsEmailAt(body, q, n, Some(excluded))
    ensures FindAll(body, excluded) == []
  {
    var a := Attempts(body, Some(excluded));
    forall q | 0 <= q < |body| ensures a[q].None? {
    }
    ScanSkips(a, 0, |a|);
  }

  /** With an empty excluded domain the lookahead always matches, so nothing is found. */
  lemma EmptyExclusionFindsNothing(s: string)
    ensures Tokens(s, "") == []
  {
    var a := Attempts(s, Some(""));
    forall q | 0 <= q < |s| ensures a[q].None? {
      EmptyGuardBlocks(s, q);
    }
    ScanSkips(a, 0, |a|);
  }

  /** The effect of one loop iteration: replace the match when it is anonymised. */
  function Step(candidate: string, excluded: string, body: string): string
  {
    var anonymized := AnonymizeEmail(candidate, excluded);
    if anonymized.Some? && anonymized.value != [] then Replace(body, candidate, anonymized.value) else body
  }

  /** Applies Step for each match in order, as the loop over `matches` does. */
  function Replaced(matches: seq<string>, excluded: string, body: string): string
    decreases |matches|
  {
    if matches == [] then body else Replaced(matches[1..], excluded, Step(matches[0], excluded, body))
  }

  /** Whether `anonymize_email` masks this match. */
  predicate Anonymised(candidate: string, excluded: string)
  {
    AnonymizeEmail(candidate, excluded).Some?
  }

  /** If no match is anonymised, the body is returned exactly as it was. */
  lemma {:induction false} ReplacedUnchanged(matches: seq<string>, excluded: string, body: string)
    requires forall k :: 0 <= k < |matches| ==> !Anonymised(matches[k], excluded)
    ensures Replaced(matches, excluded, body) == body
    decreases |matches|
  {
    if matches != [] {
      ReplacedUnchanged(matches[1..], excluded, body);
    }
  }

  /** An anonymised match is replaced by its non-empty mask. */
  lemma StepReplaces(candidate: string, excluded: string, body: string)
    requires Anonymised(candidate, excluded)
    ensures Step(candidate, excluded, body) == Replace(body, candidate, Mask(candidate))
  {
    AnonymizedIsMask(candidate, excluded);
  }

  /**
   * A candidate absent from the body stays absent through every later
   * replacement: a mask starts with `*`, which no candidate contains, and
   * holds no local-part character, which every candidate starts with.
   */
  lemma {:induction false} ReplacedKeepsAbsent(matches: seq<string>, excluded: string, body: string, t: string)
    requires IsCandidate(t)
    requires !Occurs(t, body)
    ensures !Occurs(t, Replaced(matches, excluded, body))
    decreases |matches|
  {
    if matches != [] {
      StepKeepsAbsent(matches[0], excluded, body, t);
      ReplacedKeepsAbsent(matches[1..], excluded, Step(matches[0], excluded, body), t);
    }
  }

  lemma StepKeepsAbsent(candidate: string, excluded: string, body: string, t: string)
    requires IsCandidate(t)
    requires (t == candidate && Anonymised(candidate, excluded)) || !Occurs(t, body)
    ensures !Occurs(t, Step(candidate, excluded, body))
  {
    if Anonymised(candidate, excluded) {
      AnonymizedIsMask(candidate, excluded);
      var a := Mask(candidate);
      assert |candidate| > 0 by {
        var m := MatchAt(candidate, 0, None).value;
      }
      assert t[0] !in a;
      ReplaceKeepsAbsent(body, candidate, a, t);
    }
  }

  /**
   * Every occurrence of every anonymised candidate is gone from the
   * result, not only the one at the matched position.
   */
  lemma {:induction false} ReplacedRemovesAnonymised(matches: seq<string>, excluded: string, body: string, k: nat)
    requires k < |matches|
    requires IsCandidate(matches[k]) && Anonymised(matches[k], excluded)
    ensures !Occurs(matches[k], Replaced(matches, excluded, body))
    decreases |matches|
  {
    var b1 := Step(matches[0], excluded, body);
    if k == 0 {
      StepKeepsAbsent(matches[0], excluded, body, matches[0]);
      ReplacedKeepsAbsent(matches[1..], excluded, b1, matches[0]);
    } else {
      ReplacedRemovesAnonymised(matches[1..], excluded, b1, k - 1);
    }
  }

  /**
   * The inner loop of anonymize_records (and `replace_all` in the tests):
   * each match is passed to anonymize_email and, when masked, every
   * occurrence of it in the body is replaced.
   */
  method ReplaceMatches(matches: seq<string>, excluded: string, body: string) returns (r: string)
    ensures r == Replaced(matches, excluded, body)
    ensures (forall k :: 0 <= k < |matches| ==> !Anonymised(matches[k], excluded)) ==> r == body
    ensures forall k :: 0 <= k < |matches| && IsCandidate(matches[k]) && Anonymised(matches[k], excluded) ==>
              !Occurs(matches[k], r)
  {
    r := body;
    for i := 0 to |matches|
      invariant Replaced(matches[i..], excluded, r) == Replaced(matches, excluded, body)
    {
      assert matches[i..][1..] == matches[i + 1..];
      var anonymized := AnonymizeEmail(matches[i], excluded);
      if anonymized.Some? && anonymized.value != [] {
        r := Replace(r, matches[i], anonymized.value);
      }
    }
    assert matches[|matches|..] == [];
    if forall k :: 0 <= k < |matches| ==> !Anonymised(matches[k], excluded) {
      ReplacedUnchanged(matches, excluded, body);
    }
    forall k | 0 <= k < |matches| && IsCandidate(matches[k]) && Anonymised(matches[k], excluded)
      ensures !Occurs(matches[k], r)
    {
      ReplacedRemovesAnonymised(matches, excluded, body, k);
    }
  }

  /** The body a record ends with: the scan, then the replacements. */
  function Rewrite(body: string, excluded: string): string
  {
    Replaced(FindAll(body, excluded), excluded, body)
  }

  /** After rewriting, no anonymised match of the scan occurs anywhere in the body. */
  lemma RewriteRemovesAnonymised(body: string, excluded: string, k: nat)
    requires k < |FindAll(body, excluded)|
    requires Anonymised(FindAll(body, excluded)[k], excluded)
    ensures !Occurs(FindAll(body, excluded)[k], Rewrite(body, excluded))
  {
    FindAllCandidates(body, excluded);
    ReplacedRemovesAnonymised(FindAll(body, excluded), excluded, body, k);
  }

  /** A body without any email-shaped token is left byte-for-byte unchanged. */
  lemma RewriteNoEmailUnchanged(body: string, excluded: string)
    requires forall q: nat, n :: q <= |body| ==> !IsEmailAt(body, q, n, Some(excluded))
    ensures Rewrite(body, excluded) == body
  {
    FindAllEmpty(body, excluded);
  }

  /** An empty excluded domain leaves every body unchanged. */
  lemma RewriteEmptyExclusionUnchanged(body: string)
    ensures Rewrite(body, "") == body
  {
    EmptyExclusionFindsNothing(body);
    assert FindAll(body, "") == [];
  }

  /**
   * No match starts inside a prefix that has no `@` and ends with a
   * character outside the local-part class: the local-part run of any
   * match would have to cross that character to reach its `@`.
   */
  lemma NoMatchInPrefix(a: string, rest: string, j: nat, guard: Option<string>)
    requires '@' !in a && |a| > 0 && !InClass(a[|a| - 1], Local)
    requires j < |a|
    ensures MatchAt(a + rest, j, guard) == None
  {
    var s := a + rest;
    assert forall y :: 0 <= y < |a| ==> s[y] == a[y];
  }

  /** No match starts where no `@` follows. */
  lemma NoMatchInSuffix(front: string, b: string, j: nat, guard: Option<string>)
    requires '@' !in b
    requires |front| <= j <= |front + b|
    ensures MatchAt(front + b, j, guard) == None
  {
    var s := front + b;
    assert forall y :: |front| <= y < |s| ==> s[y] == b[y - |front|];
  }

  /** Attempts that fail before p and after the match found at p yield that one token. */
  lemma ScanSingle(att: seq<Option<Split>>, p: nat)
    requires Advances(att) && p < |att| && att[p].Some?
    requires forall j :: 0 <= j < |att| && (j < p || att[p].value.end <= j) ==> att[j].None?
    ensures Scan(att, 0) == [Token(p, att[p].value)]
  {
    ScanSkips(att, 0, p);
    ScanHits(att, p);
    ScanSkips(att, att[p].value.end, |att|);
  }

  /**
   * Attempts that fail before p, between the match found at p and q, and
   * after the match found at q, which reaches the end, yield those two tokens.
   */
  lemma ScanPair(att: seq<Option<Split>>, p: nat, q: nat)
    requires Advances(att) && p < q < |att| && att[p].Some? && att[q].Some?
    requires att[p].value.end <= q && att[q].value.end == |att|
    requires forall j :: 0 <= j < |att| && (j < p || att[p].value.end <= j < q) ==> att[j].None?
    ensures Scan(att, 0) == [Token(p, att[p].value), Token(q, att[q].value)]
  {
    ScanSkips(att, 0, p);
    ScanHits(att, p);
    ScanSkips(att, att[p].value.end, q);
    ScanHits(att, q);
  }

  /**
   * A body in which matches start only at p and at q, the second reaching
   * the end of the body, is reported as those two texts.
   */
  lemma FindAllPair(body: string, excluded: string, p: nat, q: nat)
    requires p < q < |body|
    requires MatchAt(body, p, Some(excluded)).Some? && MatchAt(body, p, Some(excluded)).value.end <= q
    requires MatchAt(body, q, Some(excluded)).Some? && MatchAt(body, q, Some(excluded)).value.end == |body|
    requires forall j :: 0 <= j < |body| && (j < p || MatchAt(body, p, Some(excluded)).value.end <= j < q) ==>
               MatchAt(body, j, Some(excluded)).None?
    ensures FindAll(body, excluded) == [body[p..MatchAt(body, p, Some(excluded)).value.end], body[q..]]
  {
    var att := Attempts(body, Some(excluded));
    ScanPair(att, p, q);
    assert body[q..] == body[q..|body|];
  }

  /**
   * A body in which a match starts only at p, reaching the end of the
   * body, is reported as that one text.
   */
  lemma FindAllOne(body: string, excluded: string, p: nat)
    requires p < |body|
    requires MatchAt(body, p, Some(excluded)).Some? && MatchAt(body, p, Some(excluded)).value.end == |body|
    requires forall j :: 0 <= j < p ==> MatchAt(body, j, Some(excluded)).None?
    ensures FindAll(body, excluded) == [body[p..]]
  {
    var att := Attempts(body, Some(excluded));
    ScanSingle(att, p);
    assert body[p..] == body[p..|body|];
  }

  /** A masked match is replaced by its mask; any other match leaves the body alone. */
  lemma StepOutcome(candidate: string, excluded: string, body: string)
    ensures AnonymizeEmail(candidate, excluded) == Some("*@*") ==>
      Step(candidate, excluded, body) == Replace(body, candidate, "*@*")
    ensures AnonymizeEmail(candidate, excluded) == None ==> Step(candidate, excluded, body) == body
  {
  }

  /** Two matches are applied to the body one after the other. */
  lemma RewritePair(body: string, u: string, v: string, excluded: string)
    requires FindAll(body, excluded) == [u, v]
    ensures Rewrite(body, excluded) == Step(v, excluded, Step(u, excluded, body))
  {
    var first := Step(u, excluded, body);
    assert [u, v][1..] == [v];
    assert Replaced([u, v], excluded, body) == Replaced([v], excluded, first);
    assert [v][1..] == [];
    assert Replaced([v], excluded, first) == Replaced([], excluded, Step(v, excluded, first));
  }

  /** One match is applied to the body. */
  lemma RewriteOne(body: string, u: string, excluded: string)
    requires FindAll(body, excluded) == [u]
    ensures Rewrite(body, excluded) == Step(u, excluded, body)
  {
    assert [u][1..] == [];
    assert Replaced([u], excluded, body) == Replaced([], excluded, Step(u, excluded, body));
  }

  /** No match starts where there is no word boundary. */
  lemma NoBoundaryNoMatch(s: string, p: nat, guard: Option<string>)
    requires p <= |s| && !IsBoundary(s, p)
    ensures MatchAt(s, p, guard) == None
  {
  }

  /** No match starts in the words before x, nor after it. */
  lemma OnlyMatchAt(a: string, x: string, b: string, guard: Option<string>, j: nat)
    requires '@' !in a && |a| > 0 && !InClass(a[|a| - 1], Local) && '@' !in b
    requires j <= |a + x + b| && (j < |a| || |a| + |x| <= j)
    ensures MatchAt(a + x + b, j, guard) == None
  {
    if j < |a| {
      assert a + x + b == a + (x + b);
      NoMatchInPrefix(a, x + b, j, guard);
    } else {
      NoMatchInSuffix(a + x, b, j, guard);
    }
  }

  /**
   * A text whose only `@` belongs to one match x, preceded by words that
   * end in a separator, yields exactly that match.
   */
  lemma FindAllSingle(a: string, x: string, b: string, excluded: string)
    requires '@' !in a && |a| > 0 && !InClass(a[|a| - 1], Local) && '@' !in b
    requires MatchAt(a + x + b, |a|, Some(excluded)).Some?
    requires MatchAt(a + x + b, |a|, Some(excluded)).value.end == |a| + |x|
    ensures FindAll(a + x + b, excluded) == [x]
  {
    var s := a + x + b;
    var att := Attempts(s, Some(excluded));
    forall j | 0 <= j < |att| && (j < |a| || att[|a|].value.end <= j) ensures att[j].None? {
      OnlyMatchAt(a, x, b, Some(excluded), j);
    }
    ScanSingle(att, |a|);
    assert s[|a|..|a| + |x|] == x;
  }

  /**
   * A text with a single `@`, directly followed by the excluded domain
   * (read as a pattern), holds no match for the scan.
   */
  lemma GuardedAtBlocks(a: string, b: string, excluded: string, q: nat, n: Split)
    requires '@' !in a && '@' !in b
    requires GuardMatchesAt(a + "@" + b, |a| + 1, excluded)
    requires q <= |a + "@" + b|
    ensures !IsEmailAt(a + "@" + b, q, n, Some(excluded))
  {
    var s := a + "@" + b;
    assert forall y :: 0 <= y < |a| ==> s[y] == a[y];
    assert forall y :: |a| < y < |s| ==> s[y] == b[y - |a| - 1];
  }
}

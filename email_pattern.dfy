/**
 * The email pattern of redacty/redacty.py,
 *
 *   \b [A-Za-z0-9._%+-]+ @ (?!X) [A-Za-z0-9.-]+ \. [A-Z|a-z]{2,} \b
 *
 * where the negative lookahead (?!X) is present only in the scanning
 * variant. IsEmailAt says when the pattern matches at a position with a
 * given split; MatchAt is the backtracking recogniser, which tries the
 * longest domain run first and, for each domain run, the longest TLD run.
 */
module EmailPattern {
  import opened Strings

  /**
   * How one match starting at some position p divides the text: s[at] is
   * the `@`, s[dot] is the `.` before the TLD, and the match ends at end.
   */
  datatype Split = Split(at: nat, dot: nat, end: nat)

  /**
   * The lookahead text x matches at position i. The excluded domain is
   * read as a pattern in which `.` stands for any character except a
   * newline and every other character stands for itself.
   */
  predicate GuardMatchesAt(s: string, i: nat, x: string)
  {
    i + |x| <= |s| &&
    forall k :: 0 <= k < |x| ==> if x[k] == '.' then s[i + k] != '\n' else s[i + k] == x[k]
  }

  /** `\.[A-Z|a-z]{2,}\b` with the dot at dot and the match ending at end. */
  predicate TldFits(s: string, dot: nat, end: nat)
  {
    dot < |s| && s[dot] == '.' &&
    dot + 3 <= end <= |s| && AllIn(s, dot + 1, end, Tld) && IsBoundary(s, end)
  }

  /** The pattern matches s[p..m.end], divided as m says. */
  predicate IsEmailAt(s: string, p: nat, m: Split, guard: Option<string>)
  {
    p < m.at && m.at + 1 < m.dot && m.dot < m.end <= |s| &&
    IsBoundary(s, p) && AllIn(s, p, m.at, Local) && s[m.at] == '@' &&
    (guard.Some? ==> !GuardMatchesAt(s, m.at + 1, guard.value)) &&
    AllIn(s, m.at + 1, m.dot, Domain) && TldFits(s, m.dot, m.end)
  }

  /**
   * The backtracking engine reaches m no later than n: a later dot (a
   * longer domain run) first, and for the same dot a later end (a longer
   * TLD run).
   */
  predicate Preferred(m: Split, n: Split)
  {
    n.dot < m.dot || (n.dot == m.dot && n.end <= m.end)
  }

  /** Tries the TLD ends t, t-1, ..., dot+3 in that order; the first with \b wins. */
  function TryTld(s: string, dot: nat, t: nat): (r: Option<nat>)
    requires dot < t <= |s|
    ensures r.Some? ==> dot + 3 <= r.value <= t && IsBoundary(s, r.value)
    ensures forall e :: dot + 3 <= e <= t && IsBoundary(s, e) ==> r.Some? && e <= r.value
    decreases t
  {
    if t < dot + 3 then None
    else if IsBoundary(s, t) then Some(t)
    else TryTld(s, dot, t - 1)
  }

  /**
   * Tries the dot positions d, d-1, ..., at+2 in that order, each with
   * the longest TLD run first.
   */
  function TryDot(s: string, at: nat, d: nat): (r: Option<Split>)
    requires at + 2 <= d <= |s|
    ensures r.Some? ==> r.value.at == at && at + 1 < r.value.dot <= d && TldFits(s, r.value.dot, r.value.end)
    ensures forall n: Split :: n.at == at && at + 1 < n.dot <= d && TldFits(s, n.dot, n.end) ==>
              r.Some? && Preferred(r.value, n)
    decreases d
  {
    var here := if d < |s| && s[d] == '.' then TryTld(s, d, RunEnd(s, d + 1, Tld)) else None;
    if here.Some? then Some(Split(at, d, here.value))
    else if d == at + 2 then None
    else TryDot(s, at, d - 1)
  }

  /**
   * The pattern applied at position p, as `re.match` does at the start of
   * a string and `re.findall` does at each position it tries. The result
   * is a match exactly when one exists, and it is the split the backtracking
   * order reaches first.
   */
  function MatchAt(s: string, p: nat, guard: Option<string>): (r: Option<Split>)
    requires p <= |s|
    ensures r.Some? ==> IsEmailAt(s, p, r.value, guard)
    ensures forall n :: IsEmailAt(s, p, n, guard) ==> r.Some? && Preferred(r.value, n)
  {
    if !IsBoundary(s, p) then None
    else
      var at := RunEnd(s, p, Local);
      if at == p || at == |s| || s[at] != '@' then None
      else if guard.Some? && GuardMatchesAt(s, at + 1, guard.value) then None
      else
        var e := RunEnd(s, at + 1, Domain);
        if e < at + 2 then None else TryDot(s, at, e)
  }

  /**
   * Two matches at the same position share their `@`: it is the first `@`
   * after the position, since `@` is not a local-part character.
   */
  lemma AtIsFirst(s: string, p: nat, m: Split, n: Split, guard: Option<string>)
    requires IsEmailAt(s, p, m, guard) && IsEmailAt(s, p, n, guard)
    ensures m.at == n.at
  {
    assert !InClass('@', Local);
  }

  /**
   * A match followed by a character that can extend neither its domain run
   * nor its TLD run is the one the engine reaches.
   */
  lemma MatchStopsAt(s: string, p: nat, n: Split, guard: Option<string>)
    requires IsEmailAt(s, p, n, guard)
    requires n.end < |s| && !InClass(s[n.end], Domain) && !InClass(s[n.end], Tld)
    ensures MatchAt(s, p, guard) == Some(n)
  {
    var m := MatchAt(s, p, guard).value;
    AtIsFirst(s, p, m, n, guard);
    var next := s[n.end];
    assert !InClass('.', Tld);
    assert n.end < m.dot ==> InClass(next, Domain);
    assert m.dot == n.dot && n.end < m.end ==> InClass(next, Tld);
  }

  /**
   * A match whose TLD run stops at a character that cannot extend it, with
   * a character that fits neither run fewer than three places further on,
   * is the one the engine reaches: a dot before that character leaves no
   * room for a two-letter TLD.
   */
  lemma MatchStopsBefore(s: string, p: nat, n: Split, guard: Option<string>, c: nat)
    requires IsEmailAt(s, p, n, guard)
    requires n.end < c < n.end + 3 && c < |s|
    requires !InClass(s[n.end], Tld) && !InClass(s[c], Domain) && !InClass(s[c], Tld)
    ensures MatchAt(s, p, guard) == Some(n)
  {
    var m := MatchAt(s, p, guard).value;
    AtIsFirst(s, p, m, n, guard);
    var next, stop := s[n.end], s[c];
    assert !InClass('.', Tld) && InClass('.', Domain);
    assert c < m.dot ==> InClass(stop, Domain);
    assert m.dot == c ==> stop == '.';
    assert n.end <= m.dot < c ==> InClass(stop, Tld);
    assert m.dot == n.dot && n.end < m.end ==> InClass(next, Tld);
  }

  /**
   * A text without an `@` holds no match anywhere, as "invalid.email"
   * in the tests.
   */
  lemma NoAtNoMatch(s: string, p: nat, guard: Option<string>)
    requires p <= |s|
    requires '@' !in s
    ensures MatchAt(s, p, guard) == None
  {
  }

  /** An empty lookahead matches everywhere, so the guarded pattern never matches. */
  lemma EmptyGuardBlocks(s: string, p: nat)
    requires p <= |s|
    ensures MatchAt(s, p, Some("")) == None
  {
  }
}

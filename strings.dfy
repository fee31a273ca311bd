/**
 * Text primitives the redactor is built from: the option type for Python's
 * `None`, the character classes of the email pattern, maximal runs of one
 * class, Python's `str.endswith`, substring occurrence and `str.replace`.
 */
module Strings {

  /** `None` or a value, as Python functions that may return `None`. */
  datatype Option<T> = None | Some(value: T)

  function IsAsciiLetter(c: char): bool
  {
    ('A' <= c <= 'Z') || ('a' <= c <= 'z')
  }

  function IsAsciiDigit(c: char): bool
  {
    '0' <= c <= '9'
  }

  /** The character classes used by the email pattern. */
  datatype CharClass =
    | Local   // [A-Za-z0-9._%+-] : local part, and the class masked by re.sub
    | Domain  // [A-Za-z0-9.-]    : domain labels
    | Tld     // [A-Z|a-z]        : top-level domain; the `|` is a literal member
    | Word    // \w, restricted to ASCII: [A-Za-z0-9_]

  function InClass(c: char, k: CharClass): bool
  {
    match k
    case Local => IsAsciiLetter(c) || IsAsciiDigit(c) || c in "._%+-"
    case Domain => IsAsciiLetter(c) || IsAsciiDigit(c) || c == '.' || c == '-'
    case Tld => IsAsciiLetter(c) || c == '|'
    case Word => IsAsciiLetter(c) || IsAsciiDigit(c) || c == '_'
  }

  /** Every character of s[i..j] belongs to class k. */
  predicate AllIn(s: string, i: nat, j: nat, k: CharClass)
    requires i <= j <= |s|
  {
    forall x :: i <= x < j ==> InClass(s[x], k)
  }

  /** End of the maximal run of class-k characters that starts at i. */
  function RunEnd(s: string, i: nat, k: CharClass): (e: nat)
    requires i <= |s|
    ensures i <= e <= |s|
    ensures AllIn(s, i, e, k)
    ensures e == |s| || !InClass(s[e], k)
    ensures forall j :: i <= j <= |s| && AllIn(s, i, j, k) ==> j <= e
    decreases |s| - i
  {
    if i == |s| || !InClass(s[i], k) then i else RunEnd(s, i + 1, k)
  }

  /** \b at position i: exactly one of s[i-1], s[i] is a word character. */
  predicate IsBoundary(s: string, i: nat)
    requires i <= |s|
  {
    (i > 0 && InClass(s[i - 1], Word)) != (i < |s| && InClass(s[i], Word))
  }

  /** Python's `s.endswith(suffix)`. */
  predicate EndsWith(s: string, suffix: string)
  {
    |suffix| <= |s| && s[|s| - |suffix|..] == suffix
  }

  lemma EmptySuffixEndsEverything(s: string)
    ensures EndsWith(s, "")
  {
  }

  /** t occurs in s starting at index i. */
  predicate OccursAt(t: string, s: string, i: nat)
  {
    i + |t| <= |s| && s[i..i + |t|] == t
  }

  /** Python's `t in s`. */
  predicate Occurs(t: string, s: string)
  {
    exists i: nat :: i <= |s| && OccursAt(t, s, i)
  }

  /**
   * Python's `s.replace(pat, rep)`: every non-overlapping occurrence of
   * pat, scanning left to right, is replaced by rep. An empty pat inserts
   * rep before every character and at the end.
   */
  function Replace(s: string, pat: string, rep: string): string
    decreases |s|
  {
    if |pat| == 0 then
      if s == [] then rep else rep + [s[0]] + Replace(s[1..], pat, rep)
    else if |s| < |pat| then s
    else if s[..|pat|] == pat then rep + Replace(s[|pat|..], pat, rep)
    else [s[0]] + Replace(s[1..], pat, rep)
  }

  /** Replacing a string that does not occur leaves the text as it is. */
  lemma {:induction false} ReplaceAbsent(s: string, pat: string, rep: string)
    requires |pat| > 0
    requires !Occurs(pat, s)
    ensures Replace(s, pat, rep) == s
    decreases |s|
  {
    if |s| < |pat| {
    } else {
      assert !OccursAt(pat, s, 0);
      assert s[..|pat|] != pat;
      forall i: nat | OccursAt(pat, s[1..], i) ensures false {
        assert s[1..][i..i + |pat|] == s[i + 1..i + 1 + |pat|];
        assert OccursAt(pat, s, i + 1);
      }
      ReplaceAbsent(s[1..], pat, rep);
    }
  }

  /** Where pat starts the text, the replaced text starts with rep. */
  lemma ReplaceStartsWithRep(s: string, pat: string, rep: string)
    requires 0 < |pat| <= |s| && |rep| > 0
    requires s[..|pat|] == pat
    ensures |Replace(s, pat, rep)| > 0 && Replace(s, pat, rep)[0] == rep[0]
  {
  }

  /**
   * As long as the first character of rep is not met, the replaced text
   * agrees with the original character for character.
   */
  lemma {:induction false} ReplacePrefix(s: string, pat: string, rep: string, k: nat)
    requires |pat| > 0 && |rep| > 0
    requires k <= |Replace(s, pat, rep)|
    requires forall j :: 0 <= j < k ==> Replace(s, pat, rep)[j] != rep[0]
    ensures k <= |s| && Replace(s, pat, rep)[..k] == s[..k]
    decreases |s|
  {
    var r := Replace(s, pat, rep);
    if k > 0 && |s| >= |pat| {
      if s[..|pat|] == pat {
        ReplaceStartsWithRep(s, pat, rep);
        assert false;
      } else {
        var r' := Replace(s[1..], pat, rep);
        assert r == [s[0]] + r';
        forall j | 0 <= j < k - 1 ensures r'[j] != rep[0] {
          assert r'[j] == r[j + 1];
        }
        ReplacePrefix(s[1..], pat, rep, k - 1);
        assert r[..k] == [s[0]] + r'[..k - 1];
        assert s[..k] == [s[0]] + s[1..][..k - 1];
      }
    }
  }

  /** An occurrence in a suffix is an occurrence in the whole text. */
  lemma OccursInSuffix(t: string, s: string, d: nat, i: nat)
    requires d <= |s|
    requires OccursAt(t, s[d..], i)
    ensures OccursAt(t, s, d + i)
  {
    assert s[d..][i..i + |t|] == s[d + i..d + i + |t|];
  }

  /** Prefixing a string that cannot start t creates no occurrence of t. */
  lemma AbsentAfterPrefix(rep: string, r: string, t: string)
    requires |t| > 0 && t[0] !in rep
    requires !Occurs(t, r)
    ensures !Occurs(t, rep + r)
  {
    forall i: nat | i <= |rep + r| && OccursAt(t, rep + r, i) ensures false {
      if i >= |rep| {
        assert (rep + r)[i..i + |t|] == r[i - |rep|..i - |rep| + |t|];
        assert OccursAt(t, r, i - |rep|);
      }
    }
  }

  /**
   * An occurrence of t at the front of c + Replace(rest) is an occurrence
   * at the front of c + rest, since rep's first character is not in t.
   */
  lemma FrontAgrees(c: char, rest: string, pat: string, rep: string, t: string)
    requires |pat| > 0 && |rep| > 0 && |t| > 0
    requires rep[0] !in t
    requires OccursAt(t, [c] + Replace(rest, pat, rep), 0)
    ensures OccursAt(t, [c] + rest, 0)
  {
    var r' := Replace(rest, pat, rep);
    var r := [c] + r';
    forall j | 0 <= j < |t| - 1 ensures r'[j] != rep[0] {
      assert r'[j] == r[j + 1] == t[j + 1];
    }
    ReplacePrefix(rest, pat, rep, |t| - 1);
    assert r[..|t|] == [c] + r'[..|t| - 1];
    assert ([c] + rest)[..|t|] == [c] + rest[..|t| - 1];
  }

  /**
   * One untouched character c in front of Replace(rest): an occurrence of
   * t at the front would already be an occurrence at the front of c + rest.
   */
  lemma AbsentAfterChar(c: char, rest: string, pat: string, rep: string, t: string)
    requires |pat| > 0 && |rep| > 0 && |t| > 0
    requires rep[0] !in t
    requires !Occurs(t, Replace(rest, pat, rep))
    requires !OccursAt(t, [c] + rest, 0)
    ensures !Occurs(t, [c] + Replace(rest, pat, rep))
  {
    var r' := Replace(rest, pat, rep);
    var r := [c] + r';
    forall i: nat | i <= |r| && OccursAt(t, r, i) ensures false {
      if i == 0 {
        FrontAgrees(c, rest, pat, rep, t);
      } else {
        assert r[i..i + |t|] == r'[i - 1..i - 1 + |t|];
        assert OccursAt(t, r', i - 1);
      }
    }
  }

  /**
   * Replacing pat by rep leaves no occurrence of t, provided t is pat
   * itself or was absent, and rep cannot glue onto t: rep is non-empty,
   * its first character is not in t and t's first character is not in rep.
   */
  lemma {:induction false} ReplaceKeepsAbsent(s: string, pat: string, rep: string, t: string)
    requires |pat| > 0 && |rep| > 0 && |t| > 0
    requires t[0] !in rep && rep[0] !in t
    requires t == pat || !Occurs(t, s)
    ensures !Occurs(t, Replace(s, pat, rep))
    decreases |s|
  {
    if |s| < |pat| {
      assert Replace(s, pat, rep) == s;
      if t == pat {
        forall i: nat | i <= |s| && OccursAt(t, s, i) ensures false {
        }
      }
    } else if s[..|pat|] == pat {
      var rest := s[|pat|..];
      if t != pat {
        forall i: nat | i <= |rest| && OccursAt(t, rest, i) ensures false {
          OccursInSuffix(t, s, |pat|, i);
        }
      }
      ReplaceKeepsAbsent(rest, pat, rep, t);
      AbsentAfterPrefix(rep, Replace(rest, pat, rep), t);
    } else {
      var rest := s[1..];
      assert s == [s[0]] + rest;
      if t != pat {
        forall i: nat | i <= |rest| && OccursAt(t, rest, i) ensures false {
          OccursInSuffix(t, s, 1, i);
        }
        assert !OccursAt(t, s, 0);
      }
      ReplaceKeepsAbsent(rest, pat, rep, t);
      AbsentAfterChar(s[0], rest, pat, rep, t);
    }
  }

  /** pat at the front is replaced, and a rest without pat[k] is kept. */
  lemma ReplaceLeading(pat: string, b: string, rep: string, k: nat)
    requires k < |pat| && pat[k] !in b
    ensures Replace(pat + b, pat, rep) == rep + b
  {
    var s := pat + b;
    assert s[..|pat|] == pat;
    assert s[|pat|..] == b;
    assert !Occurs(pat, b) by {
      assert forall y :: 0 <= y < |b| ==> b[y] != pat[k];
    }
    ReplaceAbsent(b, pat, rep);
  }

  /** pat cannot start inside a, where pat[k] would fall into a or into pat[..k]. */
  lemma NotLeading(a: string, pat: string, b: string, k: nat)
    requires k < |pat| && |a| > 0
    requires pat[k] !in a && pat[k] !in pat[..k]
    ensures (a + pat + b)[..|pat|] != pat
  {
    var s := a + pat + b;
    if k < |a| {
      assert s[k] == a[k];
    } else {
      assert s[k] == pat[k - |a|] == pat[..k][k - |a|];
    }
  }

  /**
   * A pattern whose character pat[k] occurs nowhere else in the text, nor
   * earlier in the pattern, is replaced exactly where it stands.
   */
  lemma {:induction false} ReplaceUniqueMarker(a: string, pat: string, b: string, rep: string, k: nat)
    requires k < |pat|
    requires pat[k] !in a && pat[k] !in pat[..k] && pat[k] !in b
    ensures Replace(a + pat + b, pat, rep) == a + rep + b
    decreases |a|
  {
    if a == [] {
      assert a + pat + b == pat + b;
      ReplaceLeading(pat, b, rep, k);
    } else {
      var s := a + pat + b;
      NotLeading(a, pat, b, k);
      assert s[1..] == a[1..] + pat + b;
      ReplaceUniqueMarker(a[1..], pat, b, rep, k);
      assert a + rep + b == [a[0]] + (a[1..] + rep + b);
    }
  }

  /** A pattern at the front is replaced, and the scan goes on after it. */
  lemma ReplaceFront(pat: string, b: string, rep: string)
    requires |pat| > 0
    ensures Replace(pat + b, pat, rep) == rep + Replace(b, pat, rep)
  {
    assert (pat + b)[..|pat|] == pat;
    assert (pat + b)[|pat|..] == b;
  }

  /** A character that cannot start the pattern is kept, and the scan goes on after it. */
  lemma ReplaceSkipsChar(c: char, b: string, pat: string, rep: string)
    requires |pat| > 0 && c != pat[0]
    ensures Replace([c] + b, pat, rep) == [c] + Replace(b, pat, rep)
  {
    var s := [c] + b;
    if |s| >= |pat| {
      assert s[..|pat|][0] == c;
    }
    assert s[1..] == b;
  }

  /**
   * When a text is the pattern, a separator, and the pattern extended by one
   * character, both copies are replaced and the extension is kept.
   */
  lemma ReplaceBothCopies(pat: string, c: char, d: char, rep: string)
    requires |pat| > 1 && c != pat[0]
    ensures Replace(pat + [c] + pat + [d], pat, rep) == rep + [c] + rep + [d]
  {
    var tail := pat + [d];
    var rest := [c] + tail;
    assert pat + [c] + pat + [d] == pat + rest;
    ReplaceFront(pat, rest, rep);
    ReplaceSkipsChar(c, tail, pat, rep);
    ReplaceFront(pat, [d], rep);
    assert Replace([d], pat, rep) == [d];
    assert rep + ([c] + (rep + [d])) == rep + [c] + rep + [d];
  }

  /** A pattern whose first character is missing from the text does not occur in it. */
  lemma AbsentByFirst(pat: string, s: string)
    requires |pat| > 0 && pat[0] !in s
    ensures !Occurs(pat, s)
  {
    forall i: nat | i <= |s| ensures !OccursAt(pat, s, i) {
      if i + |pat| <= |s| {
        assert s[i..i + |pat|][0] == s[i];
      }
    }
  }
}

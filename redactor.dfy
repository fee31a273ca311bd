/**
 * `anonymize_email` of redacty/redacty.py: re-validate one candidate
 * against the email pattern anchored at the start, exempt it when it ends
 * with the excluded domain, and otherwise mask it.
 */
module Redactor {
  import opened Strings
  import opened EmailPattern

  /**
   * `re.sub(r'[a-zA-Z0-9._%+-]+', '*', s)`: every maximal run of
   * local-part characters becomes a single `*`; every other character is
   * kept in place.
   */
  function Mask(s: string): (r: string)
    ensures forall i :: 0 <= i < |r| ==> !InClass(r[i], Local)
    ensures |r| <= |s|
    ensures |s| > 0 ==> |r| > 0
    ensures |s| > 0 && InClass(s[0], Local) ==> r[0] == '*'
    decreases |s|
  {
    if s == [] then []
    else if InClass(s[0], Local) then "*" + Mask(s[RunEnd(s, 0, Local)..])
    else [s[0]] + Mask(s[1..])
  }

  /** A non-empty run of local-part characters masks to one `*`. */
  lemma MaskRun(s: string)
    requires |s| > 0 && AllIn(s, 0, |s|, Local)
    ensures Mask(s) == "*"
  {
    assert RunEnd(s, 0, Local) == |s|;
  }

  /** A text without local-part characters is its own mask. */
  lemma {:induction false} MaskKeepsOthers(s: string)
    requires forall i :: 0 <= i < |s| ==> !InClass(s[i], Local)
    ensures Mask(s) == s
    decreases |s|
  {
    if s != [] {
      MaskKeepsOthers(s[1..]);
    }
  }

  /** Masking twice masks once. */
  lemma MaskIdempotent(s: string)
    ensures Mask(Mask(s)) == Mask(s)
  {
    MaskKeepsOthers(Mask(s));
  }

  /** s without its local-part characters and without `*`: what masking must keep, in order. */
  function Kept(s: string): string
    decreases |s|
  {
    if s == [] then []
    else (if InClass(s[0], Local) || s[0] == '*' then [] else [s[0]]) + Kept(s[1..])
  }

  /** A prefix of local-part characters contributes nothing to Kept. */
  lemma {:induction false} KeptSkipsRun(s: string, e: nat)
    requires e <= |s| && AllIn(s, 0, e, Local)
    ensures Kept(s) == Kept(s[e..])
    decreases e
  {
    if e > 0 {
      assert s[1..][e - 1..] == s[e..];
      KeptSkipsRun(s[1..], e - 1);
    }
  }

  /**
   * Masking keeps every other character in its order: apart from the `*`
   * it writes, the mask holds exactly the characters of s outside the
   * local-part class.
   */
  lemma {:induction false} MaskKeepsOrder(s: string)
    ensures Kept(Mask(s)) == Kept(s)
    decreases |s|
  {
    if s != [] {
      if InClass(s[0], Local) {
        var e := RunEnd(s, 0, Local);
        KeptSkipsRun(s, e);
        MaskKeepsOrder(s[e..]);
        assert ("*" + Mask(s[e..]))[1..] == Mask(s[e..]);
      } else {
        MaskKeepsOrder(s[1..]);
        assert ([s[0]] + Mask(s[1..]))[1..] == Mask(s[1..]);
      }
    }
  }

  /** A maximal run inside x is not lengthened by what follows a separator. */
  lemma RunEndBeforeSeparator(x: string, i: nat, z: string, k: CharClass)
    requires i <= |x|
    requires |z| > 0 && !InClass(z[0], k)
    ensures RunEnd(x + z, i, k) == RunEnd(x, i, k)
  {
    var e := RunEnd(x, i, k);
    assert AllIn(x + z, i, e, k) by {
      forall y | i <= y < e ensures InClass((x + z)[y], k) {
        assert (x + z)[y] == x[y];
      }
    }
    assert (x + z)[e] == if e < |x| then x[e] else z[0];
  }

  /**
   * A separator (a character outside the class) splits the mask: runs
   * never reach across it, so the two sides are masked independently.
   */
  lemma {:induction false} MaskSeparated(x: string, c: char, y: string)
    requires !InClass(c, Local)
    ensures Mask(x + [c] + y) == Mask(x) + [c] + Mask(y)
    decreases |x|
  {
    var s := x + [c] + y;
    if x == [] {
      assert s == [c] + y;
    } else if InClass(x[0], Local) {
      assert s == x + ([c] + y);
      RunEndBeforeSeparator(x, 0, [c] + y, Local);
      var e := RunEnd(x, 0, Local);
      assert s[e..] == x[e..] + [c] + y;
      MaskSeparated(x[e..], c, y);
    } else {
      assert s[1..] == x[1..] + [c] + y;
      MaskSeparated(x[1..], c, y);
    }
  }

  /** The `@` of an address separates the masks of its two sides. */
  lemma MaskAroundAt(x: string, y: string)
    ensures Mask(x + "@" + y) == Mask(x) + "@" + Mask(y)
  {
    assert x + "@" + y == x + ['@'] + y;
    MaskSeparated(x, '@', y);
  }

  /**
   * An address made of local-part characters around a single `@` masks to
   * exactly "*@*".
   */
  lemma MaskAddress(x: string, y: string)
    requires |x| > 0 && AllIn(x, 0, |x|, Local)
    requires |y| > 0 && AllIn(y, 0, |y|, Local)
    ensures Mask(x + "@" + y) == "*@*"
  {
    assert Mask(x) == "*" && Mask(y) == "*" by { MaskRun(x); MaskRun(y); }
    MaskAroundAt(x, y);
  }

  /**
   * `anonymize_email(email, excluded_domain)`: the masked email when the
   * pattern matches at the start and the email does not end with the
   * excluded domain, None otherwise.
   */
  function AnonymizeEmail(email: string, excluded: string): (r: Option<string>)
    ensures r.Some? <==> (exists m :: IsEmailAt(email, 0, m, None)) && !EndsWith(email, excluded)
  {
    if MatchAt(email, 0, None).Some? && !EndsWith(email, excluded) then Some(Mask(email)) else None
  }

  /**
   * A plain suffix test decides the exemption: "a@foo.example.com" is
   * exempt under "example.com", and an empty excluded domain exempts
   * every candidate.
   */
  lemma ExcludedSuffixExempt(email: string, excluded: string)
    requires EndsWith(email, excluded)
    ensures AnonymizeEmail(email, excluded) == None
  {
  }

  lemma EmptyExclusionExemptsAll(email: string)
    ensures AnonymizeEmail(email, "") == None
  {
    EmptySuffixEndsEverything(email);
  }

  /**
   * When a candidate is anonymised the result is its mask: non-empty,
   * starting with `*`, free of local-part characters, and no longer than
   * the candidate.
   */
  lemma AnonymizedIsMask(email: string, excluded: string)
    requires AnonymizeEmail(email, excluded).Some?
    ensures AnonymizeEmail(email, excluded).value == Mask(email)
    ensures var a := AnonymizeEmail(email, excluded).value;
      |a| > 0 && a[0] == '*' && |a| <= |email| &&
      forall i :: 0 <= i < |a| ==> !InClass(a[i], Local)
  {
    var m := MatchAt(email, 0, None).value;
    assert InClass(email[0], Local);
  }
}

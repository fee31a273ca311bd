/**
 * Two consequences of rewriting a body with plain string replacement of
 * each match the scan reports, shown on small bodies rewritten under the
 * excluded domain "example.com":
 *
 *   - the rewrite is not idempotent: "x@y.zz.a@b.cc" rewrites to
 *     "*@*.a@b.cc", because the scan's second match ".a@b.cc" starts
 *     with a dot and so fails `anonymize_email`, and rewriting that
 *     once more masks the now separated "a@b.cc";
 *   - an address can be redacted in part: in "a@b.cc a@b.ccc" the
 *     replacement of the first match also hits the front of the second,
 *     longer address, whose own replacement then finds nothing, so its
 *     last character survives.
 */
module Quirks {
  import opened Strings
  import opened EmailPattern
  import opened Redactor
  import opened Rewriter

  /** An address of one local and two domain characters masks to "*@*". */
  lemma ShortAddressMasked(x: string, y: string, m: Split, excluded: string)
    requires |x| > 0 && AllIn(x, 0, |x|, Local) && |y| > 0 && AllIn(y, 0, |y|, Local)
    requires IsEmailAt(x + "@" + y, 0, m, None) && !EndsWith(x + "@" + y, excluded)
    ensures AnonymizeEmail(x + "@" + y, excluded) == Some("*@*")
  {
    MaskAddress(x, y);
  }

  /** The separators of the examples belong to none of the runs their neighbours form. */
  lemma SeparatorClasses()
    ensures !InClass('@', Local) && !InClass('@', Domain) && !InClass('@', Tld)
    ensures !InClass(' ', Local) && !InClass(' ', Domain) && !InClass(' ', Tld)
    ensures !InClass('.', Tld)
  {
  }

  /** The three addresses of the examples, split at their `@`. */
  lemma AddressParts()
    ensures "x@y.zz" == "x" + "@" + "y.zz" && AllIn("x", 0, 1, Local) && AllIn("y.zz", 0, 4, Local)
    ensures "a@b.cc" == "a" + "@" + "b.cc" && AllIn("a", 0, 1, Local) && AllIn("b.cc", 0, 4, Local)
    ensures "a@b.ccc" == "a" + "@" + "b.ccc" && AllIn("b.ccc", 0, 5, Local)
  {
  }

  /** Each of them matches the unguarded pattern from its start to its end. */
  lemma AddressesAreEmails()
    ensures IsEmailAt("x@y.zz", 0, Split(1, 3, 6), None)
    ensures IsEmailAt("a@b.cc", 0, Split(1, 3, 6), None)
    ensures IsEmailAt("a@b.ccc", 0, Split(1, 3, 7), None)
  {
    assert AllIn("x@y.zz", 2, 3, Domain) && TldFits("x@y.zz", 3, 6);
    assert AllIn("a@b.cc", 2, 3, Domain) && TldFits("a@b.cc", 3, 6);
    assert AllIn("a@b.ccc", 2, 3, Domain) && TldFits("a@b.ccc", 3, 7);
  }

  /** ... and each masks to "*@*"; none is under the excluded domain, which is longer. */
  lemma AddressesAnonymised()
    ensures AnonymizeEmail("x@y.zz", "example.com") == Some("*@*")
    ensures AnonymizeEmail("a@b.cc", "example.com") == Some("*@*")
    ensures AnonymizeEmail("a@b.ccc", "example.com") == Some("*@*")
  {
    AddressParts();
    AddressesAreEmails();
    ShortAddressMasked("x", "y.zz", Split(1, 3, 6), "example.com");
    ShortAddressMasked("a", "b.cc", Split(1, 3, 6), "example.com");
    ShortAddressMasked("a", "b.ccc", Split(1, 3, 7), "example.com");
  }

  // ---- "x@y.zz.a@b.cc": the first rewrite

  /** The first match of the glued body, "x@y.zz". */
  lemma GluedFirstIsEmail()
    ensures IsEmailAt("x@y.zz.a@b.cc", 0, Split(1, 3, 6), Some("example.com"))
  {
    var s := "x@y.zz.a@b.cc";
    assert AllIn(s, 0, 1, Local) && AllIn(s, 2, 3, Domain) && TldFits(s, 3, 6);
    assert s[2] != "example.com"[0];
  }

  /** The second match of the glued body, ".a@b.cc", which starts with the dot. */
  lemma GluedSecondIsEmail()
    ensures IsEmailAt("x@y.zz.a@b.cc", 6, Split(8, 10, 13), Some("example.com"))
  {
    var s := "x@y.zz.a@b.cc";
    assert AllIn(s, 6, 8, Local) && AllIn(s, 9, 10, Domain) && TldFits(s, 10, 13);
  }

  /**
   * At 0 the engine stops at 6: the local run ends at the first `@`, the
   * domain run cannot pass the second `@`, and a TLD after the dot at 6
   * would hold that `@`.
   */
  lemma GluedFirstMatch()
    ensures MatchAt("x@y.zz.a@b.cc", 0, Some("example.com")) == Some(Split(1, 3, 6))
  {
    var s := "x@y.zz.a@b.cc";
    GluedFirstIsEmail();
    SeparatorClasses();
    assert s[6] == '.' && s[8] == '@';
    MatchStopsBefore(s, 0, Split(1, 3, 6), Some("example.com"), 8);
  }

  /** At 6 the engine reaches the end of the body. */
  lemma GluedSecondMatch()
    ensures MatchAt("x@y.zz.a@b.cc", 6, Some("example.com")).Some?
    ensures MatchAt("x@y.zz.a@b.cc", 6, Some("example.com")).value.end == 13
  {
    GluedSecondIsEmail();
  }

  /** The scan of the glued body reports "x@y.zz" and then ".a@b.cc". */
  lemma GluedFound()
    ensures FindAll("x@y.zz.a@b.cc", "example.com") == ["x@y.zz", ".a@b.cc"]
  {
    var s := "x@y.zz.a@b.cc";
    GluedFirstMatch();
    GluedSecondMatch();
    FindAllPair(s, "example.com", 0, 6);
    GluedSlices();
  }

  lemma GluedSlices()
    ensures "x@y.zz.a@b.cc"[0..6] == "x@y.zz" && "x@y.zz.a@b.cc"[6..] == ".a@b.cc"
  {
  }

  /** The second match is not masked: there is no word boundary at its start. */
  lemma GluedSecondKept()
    ensures AnonymizeEmail(".a@b.cc", "example.com") == None
  {
    NoBoundaryNoMatch(".a@b.cc", 0, None);
  }

  /** Replacing the first match leaves the rest of the glued body as it is. */
  lemma GluedFirstReplaced()
    ensures Replace("x@y.zz.a@b.cc", "x@y.zz", "*@*") == "*@*.a@b.cc"
  {
    assert "x@y.zz.a@b.cc" == [] + "x@y.zz" + ".a@b.cc";
    ReplaceUniqueMarker([], "x@y.zz", ".a@b.cc", "*@*", 0);
  }

  /** The first rewrite leaves the second address behind its dot unmasked. */
  lemma GluedRewritten()
    ensures Rewrite("x@y.zz.a@b.cc", "example.com") == "*@*.a@b.cc"
  {
    var s, u, v := "x@y.zz.a@b.cc", "x@y.zz", ".a@b.cc";
    GluedFound();
    RewritePair(s, u, v, "example.com");
    AddressesAnonymised();
    GluedSecondKept();
    GluedFirstReplaced();
    StepOutcome(u, "example.com", s);
    StepOutcome(v, "example.com", "*@*.a@b.cc");
  }

  // ---- "*@*.a@b.cc": the second rewrite

  /** In the rewritten body the address after the dot is now a match of its own. */
  lemma SeparatedMatch()
    ensures MatchAt("*@*.a@b.cc", 4, Some("example.com")).Some?
    ensures MatchAt("*@*.a@b.cc", 4, Some("example.com")).value.end == 10
  {
    var s := "*@*.a@b.cc";
    assert AllIn(s, 4, 5, Local) && AllIn(s, 6, 7, Domain) && TldFits(s, 7, 10);
    assert IsEmailAt(s, 4, Split(5, 7, 10), Some("example.com"));
  }

  /** Nothing before it can start a match: none of "*@*." is a word character. */
  lemma SeparatedFound()
    ensures FindAll("*@*.a@b.cc", "example.com") == ["a@b.cc"]
  {
    var s := "*@*.a@b.cc";
    SeparatedMatch();
    forall j | 0 <= j < 4 ensures MatchAt(s, j, Some("example.com")).None? {
      assert !IsBoundary(s, j);
      NoBoundaryNoMatch(s, j, Some("example.com"));
    }
    FindAllOne(s, "example.com", 4);
    assert s[4..] == "a@b.cc" by { SeparatedSlice(); }
  }

  lemma SeparatedSlice()
    ensures "*@*.a@b.cc"[4..] == "a@b.cc"
  {
  }

  /** Replacing the separated address masks it. */
  lemma SeparatedReplaced()
    ensures Replace("*@*.a@b.cc", "a@b.cc", "*@*") == "*@*.*@*"
  {
    assert "*@*.a@b.cc" == "*@*." + "a@b.cc" + [];
    ReplaceUniqueMarker("*@*.", "a@b.cc", [], "*@*", 0);
  }

  /** Rewriting the rewritten body changes it again, so the rewrite is not idempotent. */
  lemma RewriteNotIdempotent()
    ensures Rewrite("x@y.zz.a@b.cc", "example.com") == "*@*.a@b.cc"
    ensures Rewrite("*@*.a@b.cc", "example.com") == "*@*.*@*"
    ensures Rewrite(Rewrite("x@y.zz.a@b.cc", "example.com"), "example.com") != Rewrite("x@y.zz.a@b.cc", "example.com")
  {
    GluedRewritten();
    var s, x := "*@*.a@b.cc", "a@b.cc";
    SeparatedFound();
    RewriteOne(s, x, "example.com");
    AddressesAnonymised();
    SeparatedReplaced();
    StepOutcome(x, "example.com", s);
  }

  // ---- "a@b.cc a@b.ccc": partial redaction

  /** The shorter address at the front. */
  lemma PrefixedFirstIsEmail()
    ensures IsEmailAt("a@b.cc a@b.ccc", 0, Split(1, 3, 6), Some("example.com"))
  {
    var s := "a@b.cc a@b.ccc";
    assert AllIn(s, 0, 1, Local) && AllIn(s, 2, 3, Domain) && TldFits(s, 3, 6);
    assert s[2] != "example.com"[0];
  }

  /** The longer address after the space. */
  lemma PrefixedSecondIsEmail()
    ensures IsEmailAt("a@b.cc a@b.ccc", 7, Split(8, 10, 14), Some("example.com"))
  {
    var s := "a@b.cc a@b.ccc";
    assert AllIn(s, 7, 8, Local) && AllIn(s, 9, 10, Domain) && TldFits(s, 10, 14);
  }

  /** At 0 the engine stops at the space. */
  lemma PrefixedFirstMatch()
    ensures MatchAt("a@b.cc a@b.ccc", 0, Some("example.com")) == Some(Split(1, 3, 6))
  {
    var s := "a@b.cc a@b.ccc";
    PrefixedFirstIsEmail();
    SeparatorClasses();
    assert s[6] == ' ';
    MatchStopsAt(s, 0, Split(1, 3, 6), Some("example.com"));
  }

  /** The space starts no match. */
  lemma PrefixedSpaceNoMatch()
    ensures MatchAt("a@b.cc a@b.ccc", 6, Some("example.com")).None?
  {
    var s := "a@b.cc a@b.ccc";
    SeparatorClasses();
    assert s[6] == ' ';
  }

  /** At 7 the engine reaches the end of the body. */
  lemma PrefixedSecondMatch()
    ensures MatchAt("a@b.cc a@b.ccc", 7, Some("example.com")).Some?
    ensures MatchAt("a@b.cc a@b.ccc", 7, Some("example.com")).value.end == 14
  {
    PrefixedSecondIsEmail();
  }

  /** The scan reports both addresses. */
  lemma PrefixedFound()
    ensures FindAll("a@b.cc a@b.ccc", "example.com") == ["a@b.cc", "a@b.ccc"]
  {
    var s := "a@b.cc a@b.ccc";
    PrefixedFirstMatch();
    PrefixedSpaceNoMatch();
    PrefixedSecondMatch();
    FindAllPair(s, "example.com", 0, 7);
    PrefixedSlices();
  }

  lemma PrefixedSlices()
    ensures "a@b.cc a@b.ccc"[0..6] == "a@b.cc" && "a@b.cc a@b.ccc"[7..] == "a@b.ccc"
  {
  }

  /** Replacing the shorter address also replaces the front of the longer one. */
  lemma PrefixedFirstStep()
    ensures Replace("a@b.cc a@b.ccc", "a@b.cc", "*@*") == "*@* *@*c"
  {
    var pat := "a@b.cc";
    assert "a@b.cc a@b.ccc" == pat + [' '] + pat + ['c'];
    ReplaceBothCopies(pat, ' ', 'c', "*@*");
    assert "*@*" + [' '] + "*@*" + ['c'] == "*@* *@*c";
  }

  /** The longer address no longer occurs after the first replacement. */
  lemma PrefixedSecondReplaced()
    ensures Replace("*@* *@*c", "a@b.ccc", "*@*") == "*@* *@*c"
  {
    AbsentByFirst("a@b.ccc", "*@* *@*c");
    ReplaceAbsent("*@* *@*c", "a@b.ccc", "*@*");
  }

  /**
   * The rewrite keeps the last character of the longer address: the
   * replacement of the second match finds no occurrence left.
   */
  lemma PartialRedaction()
    ensures Rewrite("a@b.cc a@b.ccc", "example.com") == "*@* *@*c"
  {
    var s, u, v, r := "a@b.cc a@b.ccc", "a@b.cc", "a@b.ccc", "*@* *@*c";
    PrefixedFound();
    RewritePair(s, u, v, "example.com");
    AddressesAnonymised();
    PrefixedFirstStep();
    PrefixedSecondReplaced();
    StepOutcome(u, "example.com", s);
    StepOutcome(v, "example.com", r);
  }
}

/**
 * The examples of tests/test_redacty.py, stated over the model: the three
 * `anonymize_email` cases, the `replace_all` case that rewrites a body, and
 * the `anonymize_records` run over four rows of which the age filter keeps
 * the first three. Three further runs exercise the branches the tests do
 * not reach: a declined confirmation, an age of zero days and an age that
 * reaches back before the first representable date.
 */
module Scenarios {
  import opened Strings
  import opened EmailPattern
  import opened Redactor
  import opened Rewriter
  import opened Orchestrator

  /** The date of the runs, 2024-01-01, as a proleptic Gregorian ordinal. */
  const Today: nat := 738886

  /** An address under the excluded domain is left alone. */
  lemma ExcludedAddressKept()
    ensures AnonymizeEmail("test@example.com", "example.com") == None
  {
    assert EndsWith("test@example.com", "example.com");
  }

  /** The suffix test also exempts a subdomain of the excluded domain. */
  lemma SubdomainExempt()
    ensures AnonymizeEmail("a@foo.example.com", "example.com") == None
  {
    assert EndsWith("a@foo.example.com", "example.com");
  }

  /** The address of the tests, split at its `@` and at its last dot. */
  lemma AddressIsEmail()
    ensures IsEmailAt("hello.world@gmail.com", 0, Split(11, 17, 21), None)
  {
    var s := "hello.world@gmail.com";
    assert AllIn(s, 0, 11, Local);
    assert AllIn(s, 12, 17, Domain);
    assert TldFits(s, 17, 21);
  }

  /** Both sides of the address's `@` are runs of local-part characters. */
  lemma AddressSides()
    ensures "hello.world@gmail.com" == "hello.world" + "@" + "gmail.com"
    ensures AllIn("hello.world", 0, 11, Local) && AllIn("gmail.com", 0, 9, Local)
  {
  }

  /** An ordinary address masks to "*@*". */
  lemma AddressMasked(excluded: string)
    requires excluded == "yahoo.com" || excluded == "example.com"
    ensures AnonymizeEmail("hello.world@gmail.com", excluded) == Some("*@*")
  {
    AddressIsEmail();
    assert !EndsWith("hello.world@gmail.com", excluded);
    AddressSides();
    MaskAddress("hello.world", "gmail.com");
  }

  /** A text without `@` is not an address. */
  lemma NonAddressKept()
    ensures AnonymizeEmail("invalid.email", "example.com") == None
  {
    NoAtNoMatch("invalid.email", 0, None);
  }

  /**
   * One anonymised match u@v whose `@` is the only one of the body is
   * replaced in place by its mask.
   */
  lemma SingleMatchReplaced(a: string, u: string, v: string, b: string, excluded: string, mask: string)
    requires AnonymizeEmail(u + "@" + v, excluded) == Some(mask) && mask != []
    requires '@' !in a && '@' !in u && '@' !in v && '@' !in b
    ensures Replaced([u + "@" + v], excluded, a + (u + "@" + v) + b) == a + mask + b
  {
    var x := u + "@" + v;
    var ms: seq<string> := [x];
    assert ms[1..] == [];
    assert x[..|u|] == u;
    ReplaceUniqueMarker(a, x, b, mask, |u|);
  }

  /** How the sentence divides around its address. */
  lemma SentenceParts()
    ensures "ok well this should work " + ("hello.world" + "@" + "gmail.com") + " shouldn't it"
         == "ok well this should work hello.world@gmail.com shouldn't it"
  {
  }

  /** How the rewritten sentence divides around the mask; no other `@` is there. */
  lemma SentenceMaskedParts()
    ensures "ok well this should work " + "*@*" + " shouldn't it" == "ok well this should work *@* shouldn't it"
    ensures '@' !in "ok well this should work " && '@' !in " shouldn't it"
  {
  }

  /** The single match of a sentence is replaced by its mask in place. */
  lemma SentenceRewritten()
    ensures Replaced(["hello.world@gmail.com"], "yahoo.com", "ok well this should work hello.world@gmail.com shouldn't it")
         == "ok well this should work *@* shouldn't it"
  {
    var a, u, v, b := "ok well this should work ", "hello.world", "gmail.com", " shouldn't it";
    SentenceParts();
    SentenceMaskedParts();
    assert '@' !in u && '@' !in v;
    assert u + "@" + v == "hello.world@gmail.com";
    AddressMasked("yahoo.com");
    SingleMatchReplaced(a, u, v, b, "yahoo.com", "*@*");
  }

  // The `find` case of tests/test_redacty.py:79: the sentence of the
  // `replace_all` case yields its one address.

  /** How the sentence divides around its address, for the scan. */
  lemma SentenceSides()
    ensures "ok well this should work " + "hello.world@gmail.com" + " shouldn't it"
         == "ok well this should work hello.world@gmail.com shouldn't it"
  {
    SentenceParts();
  }

  lemma SentencePrefix()
    ensures |"ok well this should work "| == 25 && !InClass("ok well this should work "[24], Local)
  {
  }

  lemma SentenceLocalPart()
    ensures AllIn("ok well this should work hello.world@gmail.com shouldn't it", 25, 36, Local)
  {
  }

  lemma SentenceDomain()
    ensures AllIn("ok well this should work hello.world@gmail.com shouldn't it", 37, 42, Domain)
  {
  }

  lemma SentenceTld()
    ensures TldFits("ok well this should work hello.world@gmail.com shouldn't it", 42, 46)
  {
  }

  lemma SentenceAnchors()
    ensures IsBoundary("ok well this should work hello.world@gmail.com shouldn't it", 25)
    ensures "ok well this should work hello.world@gmail.com shouldn't it"[36] == '@'
    ensures "ok well this should work hello.world@gmail.com shouldn't it"[37] != "example.com"[0]
    ensures "ok well this should work hello.world@gmail.com shouldn't it"[46] == ' '
  {
  }

  /** The sentence holds an address from position 25 to 46, followed by a space. */
  lemma SentenceIsEmail()
    ensures IsEmailAt("ok well this should work hello.world@gmail.com shouldn't it", 25, Split(36, 42, 46), Some("example.com"))
  {
    SentenceLocalPart();
    SentenceDomain();
    SentenceTld();
    SentenceAnchors();
  }

  /** The scan of the sentence finds its one address. */
  lemma SentenceFound()
    ensures FindAll("ok well this should work hello.world@gmail.com shouldn't it", "example.com") == ["hello.world@gmail.com"]
  {
    var s := "ok well this should work hello.world@gmail.com shouldn't it";
    SentenceIsEmail();
    SentenceAnchors();
    assert !InClass(' ', Domain) && !InClass(' ', Tld);
    MatchStopsAt(s, 25, Split(36, 42, 46), Some("example.com"));
    SentenceSides();
    SentencePrefix();
    SentenceMaskedParts();
    FindAllSingle("ok well this should work ", "hello.world@gmail.com", " shouldn't it", "example.com");
  }

  /**
   * The `find` case of tests/test_redacty.py:80: a text without `@` yields
   * no match, whatever the excluded domain.
   */
  lemma NoAddressFound(excluded: string)
    ensures FindAll("this wont work, invalid.email, you kno", excluded) == []
  {
    var s := "this wont work, invalid.email, you kno";
    assert '@' !in s;
    forall q: nat, n | q <= |s| ensures !IsEmailAt(s, q, n, Some(excluded)) {
      NoAtNoMatch(s, q, Some(excluded));
    }
    FindAllEmpty(s, excluded);
  }

  /** How the second row, before and after, divides around its address. */
  lemma SecondRowParts()
    ensures "Another test email to " + ("hello.world" + "@" + "gmail.com") + []
         == "Another test email to hello.world@gmail.com"
    ensures "Another test email to " + "hello.world@gmail.com" + [] == "Another test email to hello.world@gmail.com"
    ensures "Another test email to " + "*@*" + [] == "Another test email to *@*"
    ensures '@' !in "Another test email to "
    ensures |"Another test email to "| == 22 && !InClass("Another test email to "[21], Local)
  {
  }

  // The characters of the second row around its address, one fact each.
  lemma SecondRowLocalPart()
    ensures AllIn("Another test email to hello.world@gmail.com", 22, 33, Local)
  {
  }

  lemma SecondRowDomain()
    ensures AllIn("Another test email to hello.world@gmail.com", 34, 39, Domain)
  {
  }

  lemma SecondRowTld()
    ensures TldFits("Another test email to hello.world@gmail.com", 39, 43)
  {
  }

  lemma SecondRowAnchors()
    ensures IsBoundary("Another test email to hello.world@gmail.com", 22)
    ensures "Another test email to hello.world@gmail.com"[33] == '@'
  {
  }

  /** The second row holds an address from position 22 to its end. */
  lemma SecondRowIsEmail()
    ensures IsEmailAt("Another test email to hello.world@gmail.com", 22, Split(33, 39, 43), Some("example.com"))
  {
    SecondRowLocalPart();
    SecondRowDomain();
    SecondRowTld();
    SecondRowAnchors();
  }

  /**
   * The match the engine reaches at position 22 runs to the row's end, as
   * the only other dot position would leave fewer than two TLD characters.
   */
  lemma SecondRowMatch()
    ensures MatchAt("Another test email to hello.world@gmail.com", 22, Some("example.com")).Some?
    ensures MatchAt("Another test email to hello.world@gmail.com", 22, Some("example.com")).value.end == 43
  {
    SecondRowIsEmail();
    assert "Another test email to hello.world@gmail.com"[40] == 'c';
  }

  /** The scan of the second row finds its one address. */
  lemma SecondRowFound()
    ensures FindAll("Another test email to hello.world@gmail.com", "example.com") == ["hello.world@gmail.com"]
  {
    var a, x := "Another test email to ", "hello.world@gmail.com";
    SecondRowParts();
    SecondRowMatch();
    FindAllSingle(a, x, [], "example.com");
  }

  /** The second row: its one address is found and masked. */
  lemma SecondRowRewritten()
    ensures Rewrite("Another test email to hello.world@gmail.com", "example.com") == "Another test email to *@*"
  {
    var a, u, v := "Another test email to ", "hello.world", "gmail.com";
    SecondRowParts();
    assert '@' !in u && '@' !in v;
    assert u + "@" + v == "hello.world@gmail.com";
    SecondRowFound();
    AddressMasked("example.com");
    SingleMatchReplaced(a, u, v, [], "example.com", "*@*");
  }

  /** The first row: its only `@` is followed by the excluded domain. */
  lemma FirstRowKept()
    ensures Rewrite("This is a test email to test@example.com", "example.com") == "This is a test email to test@example.com"
  {
    var a, b := "This is a test email to test", "example.com";
    var s := a + "@" + b;
    assert s == "This is a test email to test@example.com";
    assert GuardMatchesAt(s, |a| + 1, "example.com");
    forall q: nat, n | q <= |s| ensures !IsEmailAt(s, q, n, Some("example.com")) {
      GuardedAtBlocks(a, b, "example.com", q, n);
    }
    RewriteNoEmailUnchanged(s, "example.com");
  }

  /** The third row holds no `@`. */
  lemma ThirdRowKept()
    ensures Rewrite("This email doesn't contain an email address", "example.com") == "This email doesn't contain an email address"
  {
    var s := "This email doesn't contain an email address";
    forall q: nat, n | q <= |s| ensures !IsEmailAt(s, q, n, Some("example.com")) {
      NoAtNoMatch(s, q, Some("example.com"));
    }
    RewriteNoEmailUnchanged(s, "example.com");
  }

  /** Of three records only the middle one changes: one write, under its id. */
  lemma MiddleRecordStaged(table: map<int, string>, r1: Record, r2: Record, r3: Record, excluded: string, body: string)
    requires Rewrite(r1.body, excluded) == r1.body && Rewrite(r3.body, excluded) == r3.body
    requires Rewrite(r2.body, excluded) == body && body != r2.body && r2.id in table
    ensures Staged(table, map[], [r1, r2, r3], excluded) == map[r2.id := body]
    ensures Changed([r1, r2, r3], excluded) == 1
  {
    var rs := [r1, r2, r3];
    assert rs[1..] == [r2, r3] && [r2, r3][1..] == [r3] && [r3][1..] == [];
    assert StageOne(table, map[], r1, excluded) == map[];
    calc {
      Staged(table, map[], rs, excluded);
      Staged(table, map[], [r2, r3], excluded);
      Staged(table, map[r2.id := body], [r3], excluded);
      Staged(table, map[r2.id := body], [], excluded);
    }
    calc {
      Changed(rs, excluded);
      0 + Changed([r2, r3], excluded);
      1 + Changed([r3], excluded);
      1 + 0 + Changed([], excluded);
    }
  }

  /** Committing a write to row 2 of a four-row table changes that row only. */
  lemma SecondRowCommitted(b1: string, b2: string, b3: string, b4: string, body: string)
    ensures map[1 := b1, 2 := b2, 3 := b3, 4 := b4] + map[2 := body] == map[1 := b1, 2 := body, 3 := b3, 4 := b4]
  {
  }

  /**
   * `anonymize_records` over the four rows with a 30-day threshold, the
   * excluded domain "example.com" and the reply "y": three records are
   * counted, one UPDATE is issued, and only the second row changes.
   */
  method ConfirmedRun() returns (outcome: Outcome, table: map<int, string>, statements: nat)
    ensures outcome == Anonymized(3)
    ensures table == map[1 := "This is a test email to test@example.com",
                         2 := "Another test email to *@*",
                         3 := "This email doesn't contain an email address",
                         4 := "This email is too new to be anonymized"]
    ensures statements == 2
  {
    var r1 := Record(1, "This is a test email to test@example.com");
    var r2 := Record(2, "Another test email to hello.world@gmail.com");
    var r3 := Record(3, "This email doesn't contain an email address");
    var b4 := "This email is too new to be anonymized";
    var conn := new Connection(map[1 := r1.body, 2 := r2.body, 3 := r3.body, 4 := b4]);
    FirstRowKept();
    SecondRowRewritten();
    ThirdRowKept();
    MiddleRecordStaged(conn.committed, r1, r2, r3, "example.com", "Another test email to *@*");
    IsYesExactly("y");
    SecondRowCommitted(r1.body, r2.body, r3.body, b4, "Another test email to *@*");
    outcome := AnonymizeRecords(conn, Today, 30, "example.com", Fetched([r1, r2, r3]), "y");
    table := conn.committed;
    statements := conn.executed;
  }

  /** The same run answered "n": nothing is written. */
  method DeclinedRun() returns (outcome: Outcome, table: map<int, string>)
    ensures outcome == Cancelled
    ensures table == map[2 := "Another test email to hello.world@gmail.com"]
  {
    var r2 := Record(2, "Another test email to hello.world@gmail.com");
    var conn := new Connection(map[2 := r2.body]);
    SecondRowRewritten();
    IsYesExactly("n");
    outcome := AnonymizeRecords(conn, Today, 30, "example.com", Fetched([r2]), "n");
    table := conn.committed;
  }

  /** An age of zero days, the command line's default, is refused before any statement. */
  method DefaultAgeRefused() returns (message: string, statements: nat)
    ensures message == "ValueError: Number of days must be greater than zero."
    ensures statements == 0
  {
    var conn := new Connection(map[]);
    var outcome := AnonymizeRecords(conn, Today, 0, " ", Fetched([]), "y");
    message := Message(outcome);
    statements := conn.executed;
  }

  /**
   * An age of a million days reaches back before 0001-01-01: the
   * OverflowError leaves the function before any statement.
   */
  method OverlongAgeEscapes() returns (outcome: Outcome, statements: nat)
    ensures outcome == DateOverflow
    ensures statements == 0
  {
    var conn := new Connection(map[]);
    outcome := AnonymizeRecords(conn, Today, 1000000, "example.com", Fetched([]), "y");
    statements := conn.executed;
  }
}

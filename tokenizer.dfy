/**
 * The tokenizer of `process_text`: one `re.findall` over the decoded text with an
 * ordered alternation of seven rules (email, slash date, hyphen date, URL, word,
 * currency amount, lone ampersand).
 *
 * Each rule is a matcher: given the text and a start index it returns the index just
 * past its match, or None. `MatchAt` tries the rules in priority order and keeps the
 * first that matches; `Scan` is findall itself: it emits that match and resumes after
 * it, or skips one character when no rule matches there.
 *
 * Text is a sequence of code points, so a token's length is counted in code points,
 * as Python's `len` of a `str` counts them.
 */
module Tokenizer {
  import opened Optional

  // ---------------------------------------------------------------------------
  // Character classes
  // ---------------------------------------------------------------------------

  /** `\d`, on its ASCII range. */
  predicate IsDigit(c: char) {
    '0' <= c <= '9'
  }

  /** `\w`, on its ASCII range: letters, digits and the underscore. */
  predicate IsWordChar(c: char) {
    IsDigit(c) || 'a' <= c <= 'z' || 'A' <= c <= 'Z' || c == '_'
  }

  /** `[\w\-\']`: a word character, a hyphen or an apostrophe. */
  predicate IsWordPart(c: char) {
    IsWordChar(c) || c == '-' || c == '\''
  }

  /** `[\w\-\'.]`: the local part of an email address may also hold dots. */
  predicate IsLocalPart(c: char) {
    IsWordPart(c) || c == '.'
  }

  /** `[\w\-\'.\/]`: the rest of a URL may also hold slashes. */
  predicate IsUrlPart(c: char) {
    IsLocalPart(c) || c == '/'
  }

  /** `[£$€]` */
  predicate IsCurrencySymbol(c: char) {
    c == '£' || c == '$' || c == '€'
  }

  // ---------------------------------------------------------------------------
  // Spans, runs and word boundaries
  // ---------------------------------------------------------------------------

  /** Every character of s[i..j] is in the class `p`. */
  predicate Span(s: string, i: nat, j: nat, p: char -> bool) {
    i <= j <= |s| && forall k :: i <= k < j ==> p(s[k])
  }

  /** s[i..j] is in the class `p` and cannot be extended to the right. */
  predicate MaximalSpan(s: string, i: nat, j: nat, p: char -> bool) {
    Span(s, i, j, p) && (j == |s| || !p(s[j]))
  }

  /** The length of the greedy run of class `p` starting at `i`. */
  function Run(s: string, i: nat, p: char -> bool): (n: nat)
    requires i <= |s|
    ensures MaximalSpan(s, i, i + n, p)
    decreases |s| - i
  {
    if i < |s| && p(s[i]) then 1 + Run(s, i + 1, p) else 0
  }

  /** A maximal span is the greedy run: there is only one. */
  lemma {:induction false} RunIs(s: string, i: nat, j: nat, p: char -> bool)
    requires MaximalSpan(s, i, j, p)
    ensures Run(s, i, p) == j - i
    decreases j - i
  {
    if i < j {
      assert p(s[i]);
      RunIs(s, i + 1, j, p);
    }
  }

  predicate AllDigits(s: string, i: nat, j: nat) {
    Span(s, i, j, IsDigit)
  }

  /** The literal `lit` occurs in `s` at index `i`. */
  predicate HasPrefix(s: string, i: nat, lit: string) {
    i + |lit| <= |s| && forall k :: 0 <= k < |lit| ==> s[i + k] == lit[k]
  }

  predicate WordCharBefore(s: string, i: nat) {
    0 < i <= |s| && IsWordChar(s[i - 1])
  }

  predicate WordCharAt(s: string, i: nat) {
    i < |s| && IsWordChar(s[i])
  }

  /** `\b`: a word character on exactly one side of index `i` (the ends count as non-word). */
  predicate Boundary(s: string, i: nat) {
    WordCharBefore(s, i) != WordCharAt(s, i)
  }

  // ---------------------------------------------------------------------------
  // Rule 1: `[\w\-\'.]+\@[\w\-\']+\.[\w\-\']+`
  // ---------------------------------------------------------------------------

  /**
   * `@` lies outside the class before it and `.` outside the class before it, so
   * giving characters back from either greedy run can never expose the separator:
   * the engine's backtracking cannot succeed where the greedy runs fail.
   */
  function EmailEnd(s: string, i: nat): (r: Option<nat>)
    requires i < |s|
    ensures r.Some? ==> i < r.value <= |s|
  {
    var at := i + Run(s, i, IsLocalPart);
    if at == i || at == |s| || s[at] != '@' then None
    else
      var dot := at + 1 + Run(s, at + 1, IsWordPart);
      if dot == at + 1 || dot == |s| || s[dot] != '.' then None
      else
        var e := dot + 1 + Run(s, dot + 1, IsWordPart);
        if e == dot + 1 then None else Some(e)
  }

  /** The email alternative read declaratively, with its last run taken greedily. */
  predicate EmailShape(s: string, i: nat, at: nat, dot: nat, e: nat) {
    && i < at && Span(s, i, at, IsLocalPart)
    && at < |s| && s[at] == '@'
    && at + 1 < dot && Span(s, at + 1, dot, IsWordPart)
    && dot < |s| && s[dot] == '.'
    && dot + 1 < e && MaximalSpan(s, dot + 1, e, IsWordPart)
  }

  /** The declarative shape admits exactly the span EmailEnd returns. */
  lemma EmailEndIff(s: string, i: nat, e: nat)
    requires i < |s|
    ensures EmailEnd(s, i) == Some(e) <==> exists at: nat, dot: nat :: EmailShape(s, i, at, dot, e)
  {
    if exists at: nat, dot: nat :: EmailShape(s, i, at, dot, e) {
      var at: nat, dot: nat :| EmailShape(s, i, at, dot, e);
      EmailShapeMatches(s, i, at, dot, e);
    }
    if EmailEnd(s, i) == Some(e) {
      var at := i + Run(s, i, IsLocalPart);
      var dot := at + 1 + Run(s, at + 1, IsWordPart);
      assert EmailShape(s, i, at, dot, e);
    }
  }

  lemma EmailShapeMatches(s: string, i: nat, at: nat, dot: nat, e: nat)
    requires EmailShape(s, i, at, dot, e)
    ensures EmailEnd(s, i) == Some(e)
  {
    EmailShapeRuns(s, i, at, dot, e);
  }

  /** In an email shape, the three greedy runs stop at the `@`, at the `.` and at `e`. */
  lemma EmailShapeRuns(s: string, i: nat, at: nat, dot: nat, e: nat)
    requires EmailShape(s, i, at, dot, e)
    ensures Run(s, i, IsLocalPart) == at - i
    ensures Run(s, at + 1, IsWordPart) == dot - at - 1
    ensures Run(s, dot + 1, IsWordPart) == e - dot - 1
  {
    assert Run(s, i, IsLocalPart) == at - i by {
      assert !IsLocalPart(s[at]);
      RunIs(s, i, at, IsLocalPart);
    }
    assert Run(s, at + 1, IsWordPart) == dot - at - 1 by {
      assert !IsWordPart(s[dot]);
      RunIs(s, at + 1, dot, IsWordPart);
    }
    RunIs(s, dot + 1, e, IsWordPart);
  }

  // ---------------------------------------------------------------------------
  // Rules 2 and 3: `\b\d{1,2}/\d{1,2}/\d{2,4}\b`, and the same with `-`
  // ---------------------------------------------------------------------------

  /**
   * `\d{1,2}` followed by `sep`: the engine tries `k` digits, then one fewer.
   * The index just after `sep`.
   */
  function FieldEnd(s: string, i: nat, sep: char, k: nat): (r: Option<nat>)
    requires i <= |s| && k <= 2
    ensures r.Some? ==> i + 2 <= r.value <= |s| && s[r.value - 1] == sep
    decreases k
  {
    if k == 0 then None
    else if i + k < |s| && AllDigits(s, i, i + k) && s[i + k] == sep then Some(i + k + 1)
    else FieldEnd(s, i, sep, k - 1)
  }

  /** `\d{2,4}\b`: the engine tries `k` digits, then fewer down to two, until `\b` holds. */
  function YearEnd(s: string, i: nat, k: nat): (r: Option<nat>)
    requires i <= |s| && k <= 4
    ensures r.Some? ==> i + 2 <= r.value <= |s| && Boundary(s, r.value)
    decreases k
  {
    if k < 2 then None
    else if i + k <= |s| && AllDigits(s, i, i + k) && Boundary(s, i + k) then Some(i + k)
    else YearEnd(s, i, k - 1)
  }

  /**
   * A date with separator `sep`. When the year fails the engine would also retry the
   * day and the month with one digit fewer; FieldChoiceForced shows no other choice
   * can be followed by the separator, so those retries fail and are not written out.
   */
  function DateEnd(s: string, i: nat, sep: char): (r: Option<nat>)
    requires i < |s|
    ensures r.Some? ==> i + 6 <= r.value <= |s| && Boundary(s, i) && Boundary(s, r.value)
  {
    if !Boundary(s, i) then None
    else match FieldEnd(s, i, sep, 2)
      case None => None
      case Some(m) =>
        match FieldEnd(s, m, sep, 2)
        case None => None
        case Some(y) => YearEnd(s, y, 4)
  }

  /** A day or month field succeeds exactly when its digit run has one or two digits and `sep` follows. */
  lemma FieldEndIff(s: string, i: nat, sep: char, m: nat)
    requires i <= |s| && !IsDigit(sep)
    ensures FieldEnd(s, i, sep, 2) == Some(m) <==>
      var d := Run(s, i, IsDigit);
      1 <= d <= 2 && i + d < |s| && s[i + d] == sep && m == i + d + 1
  {
    var d := Run(s, i, IsDigit);
    if 1 <= d <= 2 && i + d < |s| && s[i + d] == sep {
      if d == 1 {
        assert !IsDigit(s[i + 1]);
      }
    }
    if FieldEnd(s, i, sep, 2) == Some(m) {
      var k := m - 1 - i;
      assert AllDigits(s, i, i + k) && s[i + k] == sep;
      RunIs(s, i, i + k, IsDigit);
    }
  }

  /** Of one or two digits, only one count can be followed by the separator. */
  lemma FieldChoiceForced(s: string, i: nat, sep: char, k: nat)
    requires !IsDigit(sep) && 1 <= k <= 2
    requires i + k < |s| && AllDigits(s, i, i + k) && s[i + k] == sep
    ensures FieldEnd(s, i, sep, 2) == Some(i + k + 1)
  {
    RunIs(s, i, i + k, IsDigit);
    FieldEndIff(s, i, sep, i + k + 1);
  }

  /**
   * The backtracking over four, three and two year digits succeeds only when the
   * whole digit run has two to four digits: a shorter attempt leaves a digit after
   * it, where `\b` cannot hold.
   */
  lemma YearEndIff(s: string, i: nat, e: nat)
    requires i <= |s|
    ensures YearEnd(s, i, 4) == Some(e) <==>
      var d := Run(s, i, IsDigit);
      2 <= d <= 4 && e == i + d && Boundary(s, e)
  {
    var d := Run(s, i, IsDigit);
    if YearEnd(s, i, 4) == Some(e) {
      YearEndSomeChecks(s, i, 4);
      assert IsDigit(s[e - 1]);
      assert MaximalSpan(s, i, e, IsDigit);
      RunIs(s, i, e, IsDigit);
    }
    if 2 <= d <= 4 && e == i + d && Boundary(s, e) {
      YearEndReaches(s, i, 4, d);
    }
  }

  /** A success of YearEnd is one of the attempts it makes. */
  lemma {:induction false} YearEndSomeChecks(s: string, i: nat, k: nat)
    requires i <= |s| && k <= 4 && YearEnd(s, i, k).Some?
    ensures var e := YearEnd(s, i, k).value;
      2 <= e - i <= k && AllDigits(s, i, e) && Boundary(s, e)
    decreases k
  {
    if !(i + k <= |s| && AllDigits(s, i, i + k) && Boundary(s, i + k)) {
      YearEndSomeChecks(s, i, k - 1);
    }
  }

  /** Every attempt longer than the digit run fails, so YearEnd reaches the attempt that takes the whole run. */
  lemma {:induction false} YearEndReaches(s: string, i: nat, k: nat, d: nat)
    requires 2 <= d <= k <= 4
    requires MaximalSpan(s, i, i + d, IsDigit) && Boundary(s, i + d)
    ensures YearEnd(s, i, k) == Some(i + d)
    decreases k
  {
    if k > d {
      if i + k <= |s| {
        assert !IsDigit(s[i + d]);
      }
      YearEndReaches(s, i, k - 1, d);
    }
  }

  /** `\d{1,2}` then `sep` from `i`: a maximal run of one or two digits, with `sep` at `m - 1`. */
  predicate FieldShape(s: string, i: nat, sep: char, m: nat) {
    i + 2 <= m <= i + 3 && m <= |s| && MaximalSpan(s, i, m - 1, IsDigit) && s[m - 1] == sep
  }

  /** `\d{2,4}\b` from `y`: a maximal run of two to four digits ending at `e`, where `\b` holds. */
  predicate YearShape(s: string, y: nat, e: nat) {
    y + 2 <= e <= y + 4 && MaximalSpan(s, y, e, IsDigit) && Boundary(s, e)
  }

  /** The date alternative read declaratively: the month starts at `m` and the year at `y`. */
  predicate DateShape(s: string, i: nat, sep: char, m: nat, y: nat, e: nat) {
    Boundary(s, i) && FieldShape(s, i, sep, m) && FieldShape(s, m, sep, y) && YearShape(s, y, e)
  }

  /** The declarative shape admits exactly the span DateEnd returns. */
  lemma DateEndIff(s: string, i: nat, sep: char, e: nat)
    requires i < |s| && !IsDigit(sep)
    ensures DateEnd(s, i, sep) == Some(e) <==> exists m: nat, y: nat :: DateShape(s, i, sep, m, y, e)
  {
    if DateEnd(s, i, sep) == Some(e) {
      var m := FieldEnd(s, i, sep, 2).value;
      var y := FieldEnd(s, m, sep, 2).value;
      FieldShapeIff(s, i, sep, m);
      FieldShapeIff(s, m, sep, y);
      YearShapeIff(s, y, e);
      assert DateShape(s, i, sep, m, y, e);
    }
    if exists m: nat, y: nat :: DateShape(s, i, sep, m, y, e) {
      var m: nat, y: nat :| DateShape(s, i, sep, m, y, e);
      FieldShapeIff(s, i, sep, m);
      FieldShapeIff(s, m, sep, y);
      YearShapeIff(s, y, e);
    }
  }

  lemma FieldShapeIff(s: string, i: nat, sep: char, m: nat)
    requires i <= |s| && !IsDigit(sep)
    ensures FieldEnd(s, i, sep, 2) == Some(m) <==> FieldShape(s, i, sep, m)
  {
    FieldEndIff(s, i, sep, m);
    if FieldShape(s, i, sep, m) {
      RunIs(s, i, m - 1, IsDigit);
    }
  }

  lemma YearShapeIff(s: string, y: nat, e: nat)
    requires y <= |s|
    ensures YearEnd(s, y, 4) == Some(e) <==> YearShape(s, y, e)
  {
    YearEndIff(s, y, e);
    if YearShape(s, y, e) {
      RunIs(s, y, e, IsDigit);
    }
  }

  // ---------------------------------------------------------------------------
  // Rule 4: `\bhttps?:\/\/[\w\-\'.\/]+`
  // ---------------------------------------------------------------------------

  /**
   * `s?` is greedy: with an `s` present the engine first takes it; giving it back
   * would need `:` where the `s` is, so that retry always fails.
   */
  function UrlEnd(s: string, i: nat): (r: Option<nat>)
    requires i < |s|
    ensures r.Some? ==> i + 8 <= r.value <= |s|
  {
    if !Boundary(s, i) || !HasPrefix(s, i, "http") then None
    else
      var j := if i + 4 < |s| && s[i + 4] == 's' then i + 5 else i + 4;
      if !HasPrefix(s, j, "://") then None
      else
        var e := j + 3 + Run(s, j + 3, IsUrlPart);
        if e == j + 3 then None else Some(e)
  }

  /** The URL alternative read declaratively; `j` is the index after `http` or `https`. */
  predicate UrlShape(s: string, i: nat, j: nat, e: nat) {
    && Boundary(s, i) && HasPrefix(s, i, "http")
    && (j == i + 4 || (j == i + 5 && i + 4 < |s| && s[i + 4] == 's'))
    && HasPrefix(s, j, "://")
    && j + 3 < e && MaximalSpan(s, j + 3, e, IsUrlPart)
  }

  lemma UrlEndIff(s: string, i: nat, e: nat)
    requires i < |s|
    ensures UrlEnd(s, i) == Some(e) <==> exists j: nat :: UrlShape(s, i, j, e)
  {
    if exists j: nat :: UrlShape(s, i, j, e) {
      var j: nat :| UrlShape(s, i, j, e);
      UrlShapeMatches(s, i, j, e);
    }
    if UrlEnd(s, i) == Some(e) {
      var j := if i + 4 < |s| && s[i + 4] == 's' then i + 5 else i + 4;
      assert UrlShape(s, i, j, e);
    }
  }
  /** Every URL shape is found: the optional `s` is decided by the `:` that must follow. */
  lemma UrlShapeMatches(s: string, i: nat, j: nat, e: nat)
    requires i < |s| && UrlShape(s, i, j, e)
    ensures UrlEnd(s, i) == Some(e)
  {
    assert s[j + 0] == "://"[0];
    RunIs(s, j + 3, e, IsUrlPart);
  }


  // ---------------------------------------------------------------------------
  // Rule 5: `\b[\w\-\']+`
  // ---------------------------------------------------------------------------

  function WordEnd(s: string, i: nat): (r: Option<nat>)
    requires i < |s|
    ensures r.Some? ==> i < r.value <= |s|
  {
    if !Boundary(s, i) then None
    else
      var e := i + Run(s, i, IsWordPart);
      if e == i then None else Some(e)
  }

  lemma WordEndIff(s: string, i: nat, e: nat)
    requires i < |s|
    ensures WordEnd(s, i) == Some(e) <==> Boundary(s, i) && i < e && MaximalSpan(s, i, e, IsWordPart)
  {
    if Boundary(s, i) && i < e && MaximalSpan(s, i, e, IsWordPart) {
      RunIs(s, i, e, IsWordPart);
    }
  }

  // ---------------------------------------------------------------------------
  // Rule 6: `[£$€]\d+(?:,\d{3})*(?:\.\d+)?\b`
  // ---------------------------------------------------------------------------

  /** `,\d{3}` at index `p`. */
  predicate IsGroup(s: string, p: nat) {
    p + 4 <= |s| && s[p] == ',' && AllDigits(s, p + 1, p + 4)
  }

  /** The `j`-th group after `p`, counting from 0, is at `p + 4 * j`. */
  predicate GroupAt(s: string, p: nat, j: nat) {
    IsGroup(s, p + 4 * j)
  }

  /** How many `,\d{3}` groups the greedy star takes from `p`. */
  function Groups(s: string, p: nat): (n: nat)
    requires p <= |s|
    ensures p + 4 * n <= |s|
    ensures n == 0 <==> !IsGroup(s, p)
    decreases |s| - p
  {
    if IsGroup(s, p) then 1 + Groups(s, p + 4) else 0
  }

  /** The groups the star takes follow one another, and no further group comes after them. */
  lemma {:induction false} GroupsFollow(s: string, p: nat)
    requires p <= |s|
    ensures forall j :: 0 <= j < Groups(s, p) ==> GroupAt(s, p, j)
    ensures !GroupAt(s, p, Groups(s, p))
    decreases |s| - p
  {
    if IsGroup(s, p) {
      GroupsFollow(s, p + 4);
      var n := Groups(s, p);
      assert forall j :: 1 <= j < n ==> GroupAt(s, p + 4, j - 1) ==> GroupAt(s, p, j);
      assert GroupAt(s, p + 4, n - 1) == GroupAt(s, p, n);
    }
  }

  /** `\d+\b` of a fraction: the engine tries `k` digits, then fewer, until `\b` holds. */
  function FractionDigitsEnd(s: string, i: nat, k: nat): (r: Option<nat>)
    requires i + k <= |s|
    ensures r.Some? ==> i < r.value <= i + k && Boundary(s, r.value)
    decreases k
  {
    if k == 0 then None
    else if Boundary(s, i + k) then Some(i + k)
    else FractionDigitsEnd(s, i, k - 1)
  }

  /** `(?:\.\d+)?\b` at `q`: first with the fraction, then without it. */
  function FractionEnd(s: string, q: nat): (r: Option<nat>)
    requires q <= |s|
    ensures r.Some? ==> q <= r.value <= |s| && Boundary(s, r.value)
  {
    var withFraction :=
      if q < |s| && s[q] == '.' then FractionDigitsEnd(s, q + 1, Run(s, q + 1, IsDigit)) else None;
    if withFraction.Some? then withFraction
    else if Boundary(s, q) then Some(q)
    else None
  }

  /** `(?:,\d{3})*` having taken `n` groups from `p`, then giving them back one at a time. */
  function GroupsEnd(s: string, p: nat, n: nat): (r: Option<nat>)
    requires p + 4 * n <= |s|
    ensures r.Some? ==> p <= r.value <= |s| && Boundary(s, r.value)
    decreases n
  {
    match FractionEnd(s, p + 4 * n)
    case Some(e) => Some(e)
    case None => if n == 0 then None else GroupsEnd(s, p, n - 1)
  }

  /** `\d+` having taken `k` digits from `i`, then giving them back one at a time. */
  function AmountEnd(s: string, i: nat, k: nat): (r: Option<nat>)
    requires i + k <= |s|
    ensures r.Some? ==> i < r.value <= |s| && Boundary(s, r.value)
    decreases k
  {
    if k == 0 then None
    else match GroupsEnd(s, i + k, Groups(s, i + k))
      case Some(e) => Some(e)
      case None => AmountEnd(s, i, k - 1)
  }

  function CurrencyEnd(s: string, i: nat): (r: Option<nat>)
    requires i < |s|
    ensures r.Some? ==> i + 1 < r.value <= |s| && Boundary(s, r.value)
  {
    if !IsCurrencySymbol(s[i]) then None
    else AmountEnd(s, i + 1, Run(s, i + 1, IsDigit))
  }

  /** After digits, a position that is not a word character always ends a match. */
  lemma {:induction false} GroupsEndSucceeds(s: string, p: nat, n: nat)
    requires p + 4 * n <= |s| && Boundary(s, p)
    ensures GroupsEnd(s, p, n).Some?
    decreases n
  {
    if n > 0 && FractionEnd(s, p + 4 * n).None? {
      GroupsEndSucceeds(s, p, n - 1);
    }
  }

  /**
   * Giving back digits never helps: every shorter attempt stops in front of a digit,
   * and neither `,`, `.` nor `\b` can follow there. The same holds for the full run
   * when a word character follows it.
   */
  lemma {:induction false} AmountEndFails(s: string, i: nat, k: nat)
    requires i + k <= |s| && AllDigits(s, i, i + k)
    requires forall p | i < p <= i + k :: WordCharAt(s, p)
    ensures AmountEnd(s, i, k) == None
    decreases k
  {
    if k > 0 {
      var p := i + k;
      assert IsDigit(s[p - 1]);
      assert WordCharBefore(s, p) && WordCharAt(s, p);
      assert Groups(s, p) == 0;
      assert GroupsEnd(s, p, 0) == None;
      AmountEndFails(s, i, k - 1);
    }
  }

  /**
   * A currency amount matches exactly when a symbol is followed by at least one digit
   * and the digit run is not followed by a word character; the match then covers the
   * whole digit run.
   */
  lemma CurrencyEndIff(s: string, i: nat)
    requires i < |s|
    ensures var d := Run(s, i + 1, IsDigit);
      CurrencyEnd(s, i).Some? <==> IsCurrencySymbol(s[i]) && d >= 1 && !WordCharAt(s, i + 1 + d)
  {
    var d := Run(s, i + 1, IsDigit);
    if IsCurrencySymbol(s[i]) && d >= 1 {
      if WordCharAt(s, i + 1 + d) {
        CurrencyFailsBeforeWordChar(s, i);
      } else {
        CurrencyMatchesAtBoundary(s, i);
      }
    }
  }

  lemma CurrencyMatchesAtBoundary(s: string, i: nat)
    requires i < |s| && IsCurrencySymbol(s[i])
    requires var d := Run(s, i + 1, IsDigit); d >= 1 && !WordCharAt(s, i + 1 + d)
    ensures var p := i + 1 + Run(s, i + 1, IsDigit);
      CurrencyEnd(s, i) == GroupsEnd(s, p, Groups(s, p)) != None
  {
    var d := Run(s, i + 1, IsDigit);
    var p := i + 1 + d;
    assert Boundary(s, p) by {
      assert IsDigit(s[p - 1]);
    }
    GroupsEndSucceeds(s, p, Groups(s, p));
    AmountEndTakesAll(s, i + 1, d);
  }

  /** The first attempt, with every digit of the run, succeeds when its groups and fraction do. */
  lemma AmountEndTakesAll(s: string, i: nat, k: nat)
    requires 0 < k && i + k <= |s| && GroupsEnd(s, i + k, Groups(s, i + k)).Some?
    ensures AmountEnd(s, i, k) == GroupsEnd(s, i + k, Groups(s, i + k))
  {
  }

  lemma CurrencyFailsBeforeWordChar(s: string, i: nat)
    requires i < |s| && IsCurrencySymbol(s[i])
    requires var d := Run(s, i + 1, IsDigit); d >= 1 && WordCharAt(s, i + 1 + d)
    ensures CurrencyEnd(s, i) == None
  {
    var d := Run(s, i + 1, IsDigit);
    var p := i + 1 + d;
    forall q | i + 1 < q <= p ensures WordCharAt(s, q) {
      if q < p {
        assert IsDigit(s[q]);
      }
    }
    AmountEndFails(s, i + 1, d);
  }

  /** `\.\d+\b` at `q`: a dot, then at least one digit, and no word character after the digits. */
  predicate FractionAt(s: string, q: nat) {
    q < |s| && s[q] == '.' && Run(s, q + 1, IsDigit) >= 1 && !WordCharAt(s, q + 1 + Run(s, q + 1, IsDigit))
  }

  /**
   * Where a currency amount whose digit run ends at `p` stops, read off the text: with
   * `q` the end of the `,ddd` groups the greedy star takes, after a fraction when one fits
   * at `q`; otherwise at `q` when no word character follows; otherwise one group
   * earlier, since the last group's final digit cannot end at `\b` and the comma before
   * it can.
   */
  function AmountStop(s: string, p: nat): (e: nat)
    requires p <= |s|
    ensures p <= e <= |s|
  {
    var n := Groups(s, p);
    var q := p + 4 * n;
    if FractionAt(s, q) then q + 1 + Run(s, q + 1, IsDigit)
    else if WordCharAt(s, q) && n > 0 then q - 4
    else q
  }

  /** A currency match keeps the whole digit run and ends where AmountStop says. */
  lemma CurrencyEndValue(s: string, i: nat)
    requires i < |s| && CurrencyEnd(s, i).Some?
    ensures var p := i + 1 + Run(s, i + 1, IsDigit); CurrencyEnd(s, i) == Some(AmountStop(s, p))
  {
    var d := Run(s, i + 1, IsDigit);
    var p := i + 1 + d;
    assert IsCurrencySymbol(s[i]) && d >= 1 && !WordCharAt(s, p) by {
      CurrencyEndIff(s, i);
    }
    assert IsDigit(s[p - 1]);
    var g := GroupsEnd(s, p, Groups(s, p));
    assert CurrencyEnd(s, i) == g by {
      CurrencyMatchesAtBoundary(s, i);
    }
    assert g == Some(AmountStop(s, p)) by {
      GroupsEndValue(s, p);
    }
  }

  /** The groups and fraction after a digit run at whose end `\b` holds. */
  lemma GroupsEndValue(s: string, p: nat)
    requires 0 < p <= |s| && IsDigit(s[p - 1]) && !WordCharAt(s, p)
    ensures var n := Groups(s, p); GroupsEnd(s, p, n) == Some(AmountStop(s, p))
  {
    var n := Groups(s, p);
    var q := p + 4 * n;
    var e := AmountStop(s, p);
    DigitBeforeGroupEnd(s, p, n);
    FractionEndValue(s, q);
    if FractionAt(s, q) {
      assert FractionEnd(s, q) == Some(e);
    } else if !WordCharAt(s, q) {
      assert FractionEnd(s, q) == Some(e);
    } else {
      assert FractionEnd(s, q) == None && e == q - 4;
      LastGroupGivenBack(s, p);
    }
  }

  /** Giving back the last group leaves its comma after a digit, where `\b` holds. */
  lemma LastGroupGivenBack(s: string, p: nat)
    requires 0 < p <= |s| && IsDigit(s[p - 1]) && Groups(s, p) >= 1
    ensures GroupsEnd(s, p, Groups(s, p) - 1) == Some(p + 4 * Groups(s, p) - 4)
  {
    var n := Groups(s, p);
    DigitBeforeGroupEnd(s, p, n - 1);
    GroupsFollow(s, p);
    assert GroupAt(s, p, n - 1);
    FractionEndValue(s, p + 4 * (n - 1));
  }

  /** The digit run and every group after it end in a digit. */
  lemma DigitBeforeGroupEnd(s: string, p: nat, j: nat)
    requires 0 < p <= |s| && IsDigit(s[p - 1]) && j <= Groups(s, p)
    ensures IsDigit(s[p + 4 * j - 1])
  {
    if j > 0 {
      GroupsFollow(s, p);
      assert GroupAt(s, p, j - 1);
    }
  }

  /** `(?:\.\d+)?\b` after a digit: the fraction when it fits, else `\b` exactly when no word character follows. */
  lemma FractionEndValue(s: string, q: nat)
    requires 0 < q <= |s| && IsDigit(s[q - 1])
    ensures FractionAt(s, q) ==> FractionEnd(s, q) == Some(q + 1 + Run(s, q + 1, IsDigit))
    ensures !FractionAt(s, q) ==> FractionEnd(s, q) == (if WordCharAt(s, q) then None else Some(q))
  {
    if q < |s| && s[q] == '.' {
      var f := Run(s, q + 1, IsDigit);
      if f >= 1 && WordCharAt(s, q + 1 + f) {
        assert IsDigit(s[q + f]);
        FractionDigitsNone(s, q + 1, f - 1);
      }
    }
  }

  /** Fewer digits than the whole run leave a digit after them, where `\b` cannot hold. */
  lemma {:induction false} FractionDigitsNone(s: string, j: nat, k: nat)
    requires j + k < |s| && AllDigits(s, j, j + k + 1)
    ensures FractionDigitsEnd(s, j, k) == None
    decreases k
  {
    if k > 0 {
      assert IsDigit(s[j + k - 1]) && IsDigit(s[j + k]);
      FractionDigitsNone(s, j, k - 1);
    }
  }

  // ---------------------------------------------------------------------------
  // Rule 7: `&`
  // ---------------------------------------------------------------------------

  function AmpersandEnd(s: string, i: nat): (r: Option<nat>)
    requires i < |s|
    ensures r.Some? <==> s[i] == '&'
    ensures r.Some? ==> r.value == i + 1
  {
    if s[i] == '&' then Some(i + 1) else None
  }

  // ---------------------------------------------------------------------------
  // Rule priority and the scan
  // ---------------------------------------------------------------------------

  datatype Rule = Email | SlashDate | HyphenDate | Url | Word | Currency | Ampersand

  /** The alternatives in the order the pattern lists them. */
  const Rules: seq<Rule> := [Email, SlashDate, HyphenDate, Url, Word, Currency, Ampersand]

  /** The position of a rule in the alternation. */
  function Rank(rule: Rule): (n: nat)
    ensures n < |Rules| && Rules[n] == rule
  {
    match rule
    case Email => 0
    case SlashDate => 1
    case HyphenDate => 2
    case Url => 3
    case Word => 4
    case Currency => 5
    case Ampersand => 6
  }

  /** The rule at place `n` of the alternation has rank `n`, and no other rule does. */
  lemma RankOfRules(n: nat)
    requires n < |Rules|
    ensures Rank(Rules[n]) == n
    ensures forall q: Rule :: Rank(q) == n ==> q == Rules[n]
  {
  }

  function RuleEnd(rule: Rule, s: string, i: nat): (r: Option<nat>)
    requires i < |s|
    ensures r.Some? ==> i < r.value <= |s|
  {
    match rule
    case Email => EmailEnd(s, i)
    case SlashDate => DateEnd(s, i, '/')
    case HyphenDate => DateEnd(s, i, '-')
    case Url => UrlEnd(s, i)
    case Word => WordEnd(s, i)
    case Currency => CurrencyEnd(s, i)
    case Ampersand => AmpersandEnd(s, i)
  }

  /** A match: the text s[start..end] and the alternative that produced it. */
  datatype Token = Token(start: nat, end: nat, rule: Rule)

  /** The first of Rules[n..] that matches at `i`. */
  function FirstRule(s: string, i: nat, n: nat): (r: Option<Token>)
    requires i < |s| && n <= |Rules|
    ensures r.Some? ==>
      && r.value.start == i && n <= Rank(r.value.rule)
      && RuleEnd(r.value.rule, s, i) == Some(r.value.end)
      && forall q: Rule :: n <= Rank(q) < Rank(r.value.rule) ==> RuleEnd(q, s, i) == None
    ensures r.None? ==> forall q: Rule :: n <= Rank(q) ==> RuleEnd(q, s, i) == None
    decreases |Rules| - n
  {
    if n == |Rules| then None
    else
      RankOfRules(n);
      match RuleEnd(Rules[n], s, i)
      case Some(e) => Some(Token(i, e, Rules[n]))
      case None => FirstRule(s, i, n + 1)
  }

  /**
   * What the alternation matches at `i`: the earliest rule that matches there wins,
   * whatever the later rules would have matched.
   */
  function MatchAt(s: string, i: nat): (r: Option<Token>)
    requires i < |s|
    ensures r.Some? ==>
      && r.value.start == i && i < r.value.end <= |s|
      && RuleEnd(r.value.rule, s, i) == Some(r.value.end)
      && forall q: Rule :: Rank(q) < Rank(r.value.rule) ==> RuleEnd(q, s, i) == None
    ensures r.None? <==> forall q: Rule :: RuleEnd(q, s, i) == None
  {
    FirstRule(s, i, 0)
  }

  /** The converse of MatchAt's contract: a rule that matches where no earlier rule does is the one taken. */
  lemma FirstMatchWins(s: string, i: nat, rule: Rule, e: nat)
    requires i < |s| && RuleEnd(rule, s, i) == Some(e)
    requires forall q: Rule :: Rank(q) < Rank(rule) ==> RuleEnd(q, s, i) == None
    ensures MatchAt(s, i) == Some(Token(i, e, rule))
  {
    var r := MatchAt(s, i);
    assert r.Some?;
    assert Rank(r.value.rule) == Rank(rule);
  }

  /** Index `p` lies inside one of the tokens. */
  ghost predicate Covered(toks: seq<Token>, p: nat) {
    exists k :: 0 <= k < |toks| && toks[k].start <= p < toks[k].end
  }

  /** Each token is the match of the alternation at its own start, at or after `i`. */
  ghost predicate TokensMatch(s: string, i: nat, toks: seq<Token>) {
    forall k :: 0 <= k < |toks| ==> i <= toks[k].start < |s| && MatchAt(s, toks[k].start) == Some(toks[k])
  }

  /** The tokens come in text order and do not overlap. */
  ghost predicate InOrder(toks: seq<Token>) {
    forall a, b :: 0 <= a < b < |toks| ==> toks[a].end <= toks[b].start
  }

  /** No rule matches at an index from `i` on that the tokens leave uncovered. */
  ghost predicate GapsUnmatched(s: string, i: nat, toks: seq<Token>) {
    forall p :: i <= p < |s| && !Covered(toks, p) ==> MatchAt(s, p) == None
  }

  /** `toks` is what findall returns for the text from index `i` on. */
  ghost predicate IsFindall(s: string, i: nat, toks: seq<Token>) {
    TokensMatch(s, i, toks) && InOrder(toks) && GapsUnmatched(s, i, toks)
  }

  /** findall from index `i`: match and resume after the match, or skip one character. */
  function Scan(s: string, i: nat): (toks: seq<Token>)
    requires i <= |s|
    ensures IsFindall(s, i, toks)
    decreases |s| - i
  {
    if i == |s| then []
    else match MatchAt(s, i)
      case Some(t) =>
        var rest := Scan(s, t.end);
        ScanStep(s, i, t, rest);
        [t] + rest
      case None =>
        var rest := Scan(s, i + 1);
        ScanSkip(s, i, rest);
        rest
  }

  /** Consing the match at `i` onto the findall from its end gives the findall from `i`. */
  lemma ScanStep(s: string, i: nat, t: Token, rest: seq<Token>)
    requires i < |s| && MatchAt(s, i) == Some(t)
    requires IsFindall(s, t.end, rest)
    ensures IsFindall(s, i, [t] + rest)
  {
    ConsMatches(s, i, t, rest);
    ConsInOrder(t, rest);
    ConsGaps(s, i, t, rest);
  }

  lemma ConsMatches(s: string, i: nat, t: Token, rest: seq<Token>)
    requires i <= t.start < |s| && MatchAt(s, t.start) == Some(t)
    requires TokensMatch(s, t.end, rest)
    ensures TokensMatch(s, i, [t] + rest)
  {
    var toks := [t] + rest;
    forall k | 0 <= k < |toks|
      ensures i <= toks[k].start < |s| && MatchAt(s, toks[k].start) == Some(toks[k])
    {
      if k > 0 {
        assert toks[k] == rest[k - 1];
      }
    }
  }

  lemma ConsInOrder(t: Token, rest: seq<Token>)
    requires InOrder(rest)
    requires forall k :: 0 <= k < |rest| ==> t.end <= rest[k].start
    ensures InOrder([t] + rest)
  {
    var toks := [t] + rest;
    forall a, b | 0 <= a < b < |toks| ensures toks[a].end <= toks[b].start {
      assert toks[b] == rest[b - 1];
      if a > 0 {
        assert toks[a] == rest[a - 1];
      }
    }
  }

  lemma ConsGaps(s: string, i: nat, t: Token, rest: seq<Token>)
    requires i == t.start
    requires GapsUnmatched(s, t.end, rest)
    ensures GapsUnmatched(s, i, [t] + rest)
  {
    var toks := [t] + rest;
    forall p | i <= p < |s| && !Covered(toks, p) ensures MatchAt(s, p) == None {
      CoveredCons(t, rest, p);
    }
  }

  lemma CoveredCons(t: Token, rest: seq<Token>, p: nat)
    ensures Covered([t] + rest, p) <== (t.start <= p < t.end || Covered(rest, p))
  {
    var toks := [t] + rest;
    if t.start <= p < t.end {
      assert toks[0] == t;
    } else if Covered(rest, p) {
      var k :| 0 <= k < |rest| && rest[k].start <= p < rest[k].end;
      assert toks[k + 1] == rest[k];
    }
  }

  /** Skipping an index where nothing matches keeps the findall property. */
  lemma ScanSkip(s: string, i: nat, rest: seq<Token>)
    requires i < |s| && MatchAt(s, i) == None
    requires IsFindall(s, i + 1, rest)
    ensures IsFindall(s, i, rest)
  {
    assert GapsUnmatched(s, i, rest) by {
      forall p | i <= p < |s| && !Covered(rest, p) ensures MatchAt(s, p) == None {
        if p > i {
          assert i + 1 <= p;
        }
      }
    }
  }

  /** A token found at `i` is emitted and the scan resumes at its end. */
  lemma ScanTakes(s: string, i: nat, t: Token)
    requires i < |s| && MatchAt(s, i) == Some(t)
    ensures Scan(s, i) == [t] + Scan(s, t.end)
  {
  }

  /** A position where no rule matches is dropped. */
  lemma ScanDrops(s: string, i: nat)
    requires i < |s| && MatchAt(s, i) == None
    ensures Scan(s, i) == Scan(s, i + 1)
  {
  }

  /** The findall spans of the whole text. */
  function Tokenize(s: string): (toks: seq<Token>)
    ensures IsFindall(s, 0, toks)
    ensures forall k :: 0 <= k < |toks| ==> toks[k].start < toks[k].end <= |s|
  {
    Scan(s, 0)
  }

  /** The strings findall returns, one per token. */
  function Words(s: string): (words: seq<string>)
    ensures |words| == |Tokenize(s)|
    ensures forall k :: 0 <= k < |words| ==>
      |words[k]| == Tokenize(s)[k].end - Tokenize(s)[k].start > 0
    ensures forall k :: 0 <= k < |words| ==> words[k] == s[Tokenize(s)[k].start..Tokenize(s)[k].end]
  {
    Slices(s, Tokenize(s))
  }

  /** The text of each of `toks`. */
  function Slices(s: string, toks: seq<Token>): (words: seq<string>)
    requires forall k :: 0 <= k < |toks| ==> toks[k].start < toks[k].end <= |s|
    ensures |words| == |toks|
    ensures forall k :: 0 <= k < |toks| ==> |words[k]| == toks[k].end - toks[k].start > 0
    ensures forall k :: 0 <= k < |toks| ==> words[k] == s[toks[k].start..toks[k].end]
  {
    seq(|toks|, k requires 0 <= k < |toks| => s[toks[k].start..toks[k].end])
  }

  /** IsFindall pins the token list down: the scan is the only list that meets it. */
  lemma {:induction false} FindallUnique(s: string, i: nat, toks: seq<Token>)
    requires i <= |s| && IsFindall(s, i, toks)
    ensures toks == Scan(s, i)
    decreases |s| - i, 1
  {
    if i == |s| {
      FindallAtEnd(s, i, toks);
    } else if MatchAt(s, i).Some? {
      FindallUniqueAtMatch(s, i, toks);
    } else {
      FindallUniqueAtGap(s, i, toks);
    }
  }

  lemma {:induction false} FindallUniqueAtGap(s: string, i: nat, toks: seq<Token>)
    requires i < |s| && MatchAt(s, i) == None && IsFindall(s, i, toks)
    ensures toks == Scan(s, i)
    decreases |s| - i, 0
  {
    FindallSkip(s, i, toks);
    FindallUnique(s, i + 1, toks);
    ScanDrops(s, i);
  }

  /** Nothing is left to find at the end of the text. */
  lemma FindallAtEnd(s: string, i: nat, toks: seq<Token>)
    requires i == |s| && IsFindall(s, i, toks)
    ensures toks == []
  {
    if |toks| > 0 {
      FindallBounds(s, i, toks);
      assert false;
    }
  }

  lemma {:induction false} FindallUniqueAtMatch(s: string, i: nat, toks: seq<Token>)
    requires i < |s| && MatchAt(s, i).Some? && IsFindall(s, i, toks)
    ensures toks == Scan(s, i)
    decreases |s| - i, 0
  {
    var t := MatchAt(s, i).value;
    FindallHead(s, i, t, toks);
    FindallTail(s, i, toks);
    var rest := toks[1..];
    FindallUnique(s, t.end, rest);
    ScanTakes(s, i, t);
    assert toks == [t] + rest;
  }

  /** The first token starts at or after `i` and every later one starts after it ends. */
  lemma FindallBounds(s: string, i: nat, toks: seq<Token>)
    requires IsFindall(s, i, toks) && |toks| > 0
    ensures i <= toks[0].start < toks[0].end <= |s|
    ensures forall j :: 0 < j < |toks| ==> toks[0].end <= toks[j].start
  {
    assert MatchAt(s, toks[0].start) == Some(toks[0]);
  }

  /** When a rule matches at `i`, its match is the first token of every findall list from `i`. */
  lemma FindallHead(s: string, i: nat, t: Token, toks: seq<Token>)
    requires i < |s| && MatchAt(s, i) == Some(t) && IsFindall(s, i, toks)
    ensures |toks| > 0 && toks[0] == t
  {
    assert Covered(toks, i);
    var k :| 0 <= k < |toks| && toks[k].start <= i < toks[k].end;
    FindallBounds(s, i, toks);
    assert k == 0;
    assert MatchAt(s, toks[0].start) == Some(toks[0]);
  }

  /** Dropping the first token leaves the findall from where that token ends. */
  lemma FindallTail(s: string, i: nat, toks: seq<Token>)
    requires IsFindall(s, i, toks) && |toks| > 0
    ensures IsFindall(s, toks[0].end, toks[1..])
  {
    FindallBounds(s, i, toks);
    TailMatches(s, i, toks);
    TailInOrder(toks);
    TailGaps(s, i, toks);
  }

  lemma TailMatches(s: string, i: nat, toks: seq<Token>)
    requires |toks| > 0 && TokensMatch(s, i, toks)
    requires forall j :: 0 < j < |toks| ==> toks[0].end <= toks[j].start
    ensures TokensMatch(s, toks[0].end, toks[1..])
  {
    var rest := toks[1..];
    forall j | 0 <= j < |rest|
      ensures toks[0].end <= rest[j].start < |s| && MatchAt(s, rest[j].start) == Some(rest[j])
    {
      assert rest[j] == toks[j + 1];
    }
  }

  lemma TailInOrder(toks: seq<Token>)
    requires |toks| > 0 && InOrder(toks)
    ensures InOrder(toks[1..])
  {
    var rest := toks[1..];
    forall a, b | 0 <= a < b < |rest| ensures rest[a].end <= rest[b].start {
      assert rest[a] == toks[a + 1] && rest[b] == toks[b + 1];
    }
  }

  lemma TailGaps(s: string, i: nat, toks: seq<Token>)
    requires |toks| > 0 && i <= toks[0].end && GapsUnmatched(s, i, toks)
    ensures GapsUnmatched(s, toks[0].end, toks[1..])
  {
    forall p | toks[0].end <= p < |s| && !Covered(toks[1..], p) ensures MatchAt(s, p) == None {
      CoveredTail(toks, p);
    }
  }

  /** An index past the first token is covered by the list only if the rest covers it. */
  lemma CoveredTail(toks: seq<Token>, p: nat)
    requires |toks| > 0 && toks[0].end <= p
    ensures Covered(toks, p) ==> Covered(toks[1..], p)
  {
    if Covered(toks, p) {
      var k :| 0 <= k < |toks| && toks[k].start <= p < toks[k].end;
      assert toks[1..][k - 1] == toks[k];
    }
  }

  /** When no rule matches at `i`, every findall list from `i` starts after `i`. */
  lemma FindallSkip(s: string, i: nat, toks: seq<Token>)
    requires i < |s| && MatchAt(s, i) == None && IsFindall(s, i, toks)
    ensures IsFindall(s, i + 1, toks)
  {
    assert TokensMatch(s, i + 1, toks) by {
      forall k | 0 <= k < |toks|
        ensures i + 1 <= toks[k].start < |s| && MatchAt(s, toks[k].start) == Some(toks[k])
      {
        assert MatchAt(s, toks[k].start) == Some(toks[k]);
      }
    }
  }
}

/**
 * The spot checks applied to the extracted record: `check_email`, `check_gender` and the
 * in-place update of the record's "Gender" and "Email" fields.
 *
 * The chat model is an oracle: its reply to the one question a check may ask is given as a
 * parameter, `None` when the call failed, otherwise the decoded JSON object. A check reports
 * whether it asked; when it did not, the reply is never looked at.
 */
module Fields {
  import opened Base

  // ---------------------------------------------------------------------------------------
  // Character classes of the e-mail pattern
  //   \b[A-Za-z0-9._%+-]+@[A-Za-z0-9.-]+\.[A-Z|a-z]{2,7}\b
  // ---------------------------------------------------------------------------------------

  predicate IsLetter(c: char)
  {
    'A' <= c <= 'Z' || 'a' <= c <= 'z'
  }

  predicate IsDigit(c: char)
  {
    '0' <= c <= '9'
  }

  /** `\w`, restricted to ASCII. */
  predicate IsWordChar(c: char)
  {
    IsLetter(c) || IsDigit(c) || c == '_'
  }

  /** `[A-Za-z0-9._%+-]` */
  predicate InLocalClass(c: char)
  {
    IsLetter(c) || IsDigit(c) || c == '.' || c == '_' || c == '%' || c == '+' || c == '-'
  }

  /** `[A-Za-z0-9.-]` */
  predicate InDomainClass(c: char)
  {
    IsLetter(c) || IsDigit(c) || c == '.' || c == '-'
  }

  /** `[A-Z|a-z]`: the bar is a literal member of the class. */
  predicate InTldClass(c: char)
  {
    IsLetter(c) || c == '|'
  }

  /** Position `k` holds a word character; positions outside the string do not. */
  predicate WordAt(s: string, k: int)
  {
    0 <= k < |s| && IsWordChar(s[k])
  }

  /** `\b` at position `k`: exactly one of the characters around `k` is a word character. */
  predicate BoundaryAt(s: string, k: int)
  {
    WordAt(s, k - 1) != WordAt(s, k)
  }

  // ---------------------------------------------------------------------------------------
  // The pattern as an existential over split points
  // ---------------------------------------------------------------------------------------

  /** `s` starts with local part `s[..at]`, `@`, domain `s[at+1..dot]`, `.`, top-level domain
      `s[dot+1..end]` and a word boundary; anything may follow `end`. */
  predicate EmailAt(s: string, at: int, dot: int, end: int)
  {
    && 0 < at && at + 1 < dot && dot + 3 <= end <= dot + 8 && end <= |s|
    && BoundaryAt(s, 0)
    && (forall i | 0 <= i < at :: InLocalClass(s[i]))
    && s[at] == '@'
    && (forall i | at < i < dot :: InDomainClass(s[i]))
    && s[dot] == '.'
    && (forall i | dot < i < end :: InTldClass(s[i]))
    && BoundaryAt(s, end)
  }

  /** `re.match(pat, s)` succeeds: some choice of split points fits the pattern. */
  ghost predicate EmailPattern(s: string)
  {
    exists at, dot, end :: EmailAt(s, at, dot, end)
  }

  // ---------------------------------------------------------------------------------------
  // A scanner for the pattern
  // ---------------------------------------------------------------------------------------

  /** The end of the longest run of characters in class `p` that starts at `i`. */
  function RunEnd(s: string, i: nat, p: char -> bool): (j: nat)
    requires i <= |s|
    ensures i <= j <= |s|
    ensures forall k | i <= k < j :: p(s[k])
    ensures j < |s| ==> !p(s[j])
    decreases |s| - i
  {
    if i == |s| || !p(s[i]) then i else RunEnd(s, i + 1, p)
  }

  /** Some end in `lo..hi` has a word boundary; tried longest first, as the greedy `{2,7}` does. */
  function TldBacktrack(s: string, lo: int, hi: int): bool
    decreases hi - lo
  {
    lo <= hi && (BoundaryAt(s, hi) || TldBacktrack(s, lo, hi - 1))
  }

  /** The top-level domain after the dot at `dot`: 2 to 7 class characters, then a boundary. */
  function TldAfter(s: string, dot: nat): bool
    requires dot < |s|
  {
    var run := RunEnd(s, dot + 1, InTldClass);
    TldBacktrack(s, dot + 3, if run < dot + 8 then run else dot + 8)
  }

  /** Some dot in `k..e` is followed by a valid top-level domain; tried left to right. */
  function DotFrom(s: string, k: nat, e: nat): bool
    requires e <= |s|
    decreases e - k
  {
    k < e && ((s[k] == '.' && TldAfter(s, k)) || DotFrom(s, k + 1, e))
  }

  /** The scanner: the local part ends at the first character outside its class, which must be
      `@`; the domain and its last dot lie inside the run of domain characters after it. */
  function MatchEmail(s: string): bool
  {
    var at := RunEnd(s, 0, InLocalClass);
    && 0 < at < |s| && s[at] == '@' && WordAt(s, 0)
    && DotFrom(s, at + 2, RunEnd(s, at + 1, InDomainClass))
  }

  lemma {:induction false} TldBacktrackWitness(s: string, lo: int, hi: int)
    ensures TldBacktrack(s, lo, hi) <==> exists end | lo <= end <= hi :: BoundaryAt(s, end)
    decreases hi - lo
  {
    if lo <= hi {
      TldBacktrackWitness(s, lo, hi - 1);
      if !BoundaryAt(s, hi) {
        assert (exists end | lo <= end <= hi :: BoundaryAt(s, end))
          == (exists end | lo <= end <= hi - 1 :: BoundaryAt(s, end));
      }
    }
  }

  /** The scanner's top-level domain test is the pattern's. */
  lemma TldAfterMeaning(s: string, dot: nat)
    requires dot < |s|
    ensures TldAfter(s, dot) <==>
      exists end | dot + 3 <= end <= dot + 8 && end <= |s| ::
        (forall i | dot < i < end :: InTldClass(s[i])) && BoundaryAt(s, end)
  {
    var run := RunEnd(s, dot + 1, InTldClass);
    var hi := if run < dot + 8 then run else dot + 8;
    TldBacktrackWitness(s, dot + 3, hi);
    if TldAfter(s, dot) {
      var end :| dot + 3 <= end <= hi && BoundaryAt(s, end);
      assert forall i | dot < i < end :: InTldClass(s[i]);
    }
    if exists end | dot + 3 <= end <= dot + 8 && end <= |s| ::
        (forall i | dot < i < end :: InTldClass(s[i])) && BoundaryAt(s, end)
    {
      var end :| dot + 3 <= end <= dot + 8 && end <= |s| &&
        (forall i | dot < i < end :: InTldClass(s[i])) && BoundaryAt(s, end);
      assert dot + 3 <= end <= hi;
    }
  }

  lemma {:induction false} DotFromWitness(s: string, k: nat, e: nat)
    requires e <= |s|
    ensures DotFrom(s, k, e) <==> exists d | k <= d < e :: s[d] == '.' && TldAfter(s, d)
    decreases e - k
  {
    if k < e {
      DotFromWitness(s, k + 1, e);
      if !(s[k] == '.' && TldAfter(s, k)) {
        assert (exists d | k <= d < e :: s[d] == '.' && TldAfter(s, d))
          == (exists d | k + 1 <= d < e :: s[d] == '.' && TldAfter(s, d));
      }
    }
  }

  /** A run that stops at a character outside the class ends there. */
  lemma RunEndAt(s: string, i: nat, p: char -> bool, j: nat)
    requires i <= j < |s|
    requires forall k | i <= k < j :: p(s[k])
    requires !p(s[j])
    ensures RunEnd(s, i, p) == j
  {
  }

  /** Every string the scanner accepts matches the pattern. */
  lemma MatchEmailSound(s: string)
    requires MatchEmail(s)
    ensures EmailPattern(s)
  {
    var at := RunEnd(s, 0, InLocalClass);
    var e := RunEnd(s, at + 1, InDomainClass);
    DotFromWitness(s, at + 2, e);
    var dot :| at + 2 <= dot < e && s[dot] == '.' && TldAfter(s, dot);
    TldAfterMeaning(s, dot);
    var end :| dot + 3 <= end <= dot + 8 && end <= |s| &&
      (forall i | dot < i < end :: InTldClass(s[i])) && BoundaryAt(s, end);
    assert EmailAt(s, at, dot, end);
  }

  /** Every string matching the pattern is accepted by the scanner. */
  lemma MatchEmailComplete(s: string)
    requires EmailPattern(s)
    ensures MatchEmail(s)
  {
    var at, dot, end :| EmailAt(s, at, dot, end);
    RunEndAt(s, 0, InLocalClass, at);
    assert WordAt(s, 0);
    RunCovers(s, at + 1, InDomainClass, dot);
    var e := RunEnd(s, at + 1, InDomainClass);
    assert dot + 3 <= end <= dot + 8 && end <= |s|;
    assert (forall i | dot < i < end :: InTldClass(s[i])) && BoundaryAt(s, end);
    TldAfterMeaning(s, dot);
    assert at + 2 <= dot < e && s[dot] == '.' && TldAfter(s, dot);
    DotFromWitness(s, at + 2, e);
  }

  /** A run of class characters reaching `j` ends after `j`. */
  lemma RunCovers(s: string, i: nat, p: char -> bool, j: nat)
    requires i <= j < |s|
    requires forall k | i <= k <= j :: p(s[k])
    ensures j < RunEnd(s, i, p)
  {
  }

  /** The scanner accepts exactly the strings the pattern matches. */
  lemma MatchEmailExact(s: string)
    ensures MatchEmail(s) <==> EmailPattern(s)
  {
    if MatchEmail(s) {
      MatchEmailSound(s);
    }
    if EmailPattern(s) {
      MatchEmailComplete(s);
    }
  }

  // ---------------------------------------------------------------------------------------
  // The checks
  // ---------------------------------------------------------------------------------------

  /** The value a check settles on, and whether it asked the chat model for it. */
  datatype Spot = Spot(value: string, asked: bool)

  /** The answer under `key` in the oracle's reply, or `fallback` when the call failed or the
      reply lacks the key. */
  function Answer(reply: Option<map<string, string>>, key: string, fallback: string): (r: string)
    ensures reply.Some? && key in reply.value ==> r == reply.value[key]
    ensures !(reply.Some? && key in reply.value) ==> r == fallback
  {
    if reply.Some? && key in reply.value then reply.value[key] else fallback
  }

  /** `check_email`: a matching address is kept, an empty one or "N/A" becomes "N/A", and any
      other string is sent to the chat model, whose "Email" answer replaces it if there is one. */
  function CheckEmail(email: string, reply: Option<map<string, string>>): (r: Spot)
    ensures r.asked <==> !EmailPattern(email) && email != "" && email != "N/A"
    ensures EmailPattern(email) ==> r.value == email
    ensures !EmailPattern(email) && (email == "" || email == "N/A") ==> r.value == "N/A"
    ensures r.asked && reply.Some? && "Email" in reply.value ==> r.value == reply.value["Email"]
    ensures r.asked && !(reply.Some? && "Email" in reply.value) ==> r.value == email
  {
    MatchEmailExact(email);
    if MatchEmail(email) then Spot(email, false)
    else if email == "" || email == "N/A" then Spot("N/A", false)
    else Spot(Answer(reply, "Email", email), true)
  }

  /** `check_gender`: "Male" and "Female" are kept, as is any value when the name is empty or
      "N/A"; otherwise the chat model's "Gender" answer replaces it if there is one, whatever
      it says. */
  function CheckGender(gender: string, name: string, reply: Option<map<string, string>>): (r: Spot)
    ensures r.asked <==> gender != "Male" && gender != "Female" && name != "" && name != "N/A"
    ensures !r.asked ==> r.value == gender
    ensures r.asked && reply.Some? && "Gender" in reply.value ==> r.value == reply.value["Gender"]
    ensures r.asked && !(reply.Some? && "Gender" in reply.value) ==> r.value == gender
  {
    if gender in ["Male", "Female"] || name in ["", "N/A"] then Spot(gender, false)
    else Spot(Answer(reply, "Gender", gender), true)
  }

  /** Neither the empty string nor "N/A" looks like an address, so both reach the "N/A" branch. */
  lemma NoAddressInPlaceholders()
    ensures !EmailPattern("")
    ensures !EmailPattern("N/A")
  {
    var na := "N/A";
    assert forall at | 0 <= at < |na| :: na[at] != '@';
  }

  /** A well-formed address passes unchanged, without a question. */
  lemma PlainAddressKept(reply: Option<map<string, string>>)
    ensures CheckEmail("john@example.com", reply) == Spot("john@example.com", false)
  {
    var s := "john@example.com";
    assert forall i | 0 <= i < 4 :: InLocalClass(s[i]);
    assert forall i | 4 < i < 12 :: InDomainClass(s[i]);
    assert forall i | 12 < i < 16 :: InTldClass(s[i]);
    assert EmailAt(s, 4, 12, 16);
  }

  /** The bar in `[A-Z|a-z]` is a literal class member, so a top-level domain may contain it:
      such an address passes unchanged, without a question. */
  lemma BarAcceptedInTld(reply: Option<map<string, string>>)
    ensures CheckEmail("john@example.|com", reply) == Spot("john@example.|com", false)
  {
    var s := "john@example.|com";
    assert forall i | 0 <= i < 4 :: InLocalClass(s[i]);
    assert forall i | 4 < i < 12 :: InDomainClass(s[i]);
    assert forall i | 12 < i < 17 :: InTldClass(s[i]);
    assert EmailAt(s, 4, 12, 17);
  }

  /** An address without a dot after the `@` is sent to the chat model. */
  lemma DotlessAddressAsked(reply: Option<map<string, string>>)
    ensures CheckEmail("john@example", reply).asked
  {
    var s := "john@example";
    assert forall i | 0 <= i < |s| :: s[i] != '.';
    assert !EmailPattern(s);
  }

  /** A value the check settles on without asking is settled again without asking. */
  lemma CheckEmailSettles(email: string, reply: Option<map<string, string>>, again: Option<map<string, string>>)
    requires !CheckEmail(email, reply).asked
    ensures CheckEmail(CheckEmail(email, reply).value, again) == CheckEmail(email, reply)
  {
    NoAddressInPlaceholders();
  }

  /** The model's answer is not validated: an answer outside "Male", "Female" and "Not Sure"
      is taken as it is, and a later check would ask again. */
  lemma GenderAnswerUnchecked(name: string)
    requires name != "" && name != "N/A"
    ensures CheckGender("", name, Some(map["Gender" := "Unknown"])) == Spot("Unknown", true)
    ensures CheckGender("Unknown", name, None).asked
  {
  }

  /** A gender the check settles on is settled again; an answer of "Male" or "Female" ends
      the questions. */
  lemma CheckGenderSettles(gender: string, name: string, reply: Option<map<string, string>>, again: Option<map<string, string>>)
    requires var r := CheckGender(gender, name, reply); !r.asked || r.value in ["Male", "Female"]
    ensures var r := CheckGender(gender, name, reply); CheckGender(r.value, name, again) == Spot(r.value, false)
  {
  }

  // ---------------------------------------------------------------------------------------
  // The record update in the batch loop
  // ---------------------------------------------------------------------------------------

  /** The spot checks applied in place to the extracted record: "Gender" is re-checked against
      "Name", then "Email" is re-checked. A record with "Gender" but no "Name" makes the lookup
      raise, which is `None` here. */
  method SpotCheck(record: map<string, string>, genderReply: Option<map<string, string>>, emailReply: Option<map<string, string>>)
    returns (r: Option<map<string, string>>)
    ensures r.None? <==> "Gender" in record && "Name" !in record
    ensures r.Some? ==> r.value.Keys == record.Keys
    ensures r.Some? ==> forall k | k in record && k != "Gender" && k != "Email" :: r.value[k] == record[k]
    ensures r.Some? && "Gender" in record ==>
      r.value["Gender"] == CheckGender(record["Gender"], record["Name"], genderReply).value
    ensures r.Some? && "Email" in record ==> r.value["Email"] == CheckEmail(record["Email"], emailReply).value
  {
    var result := record;
    if "Gender" in result {
      if "Name" !in result {
        return None;
      }
      result := result["Gender" := CheckGender(result["Gender"], result["Name"], genderReply).value];
    }
    if "Email" in result {
      result := result["Email" := CheckEmail(result["Email"], emailReply).value];
    }
    return Some(result);
  }
}

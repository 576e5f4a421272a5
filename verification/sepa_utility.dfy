/** Checks of SEPA Direct Debit identifiers: IBAN (shape and ISO 13616-1 check
    digits, computed with ISO/IEC 7064 MOD 97-10), BIC (ISO 9362 shape),
    creditor identifier and message id. A Java `null` argument is `None`. */
module SepaUtility {
  import opened Wrappers
  import opened Text
  import opened Decimal
  import opened Regex

  const MaxCharMessageId := 35
  const MaxCharIban := 34
  /** Length of the country code. */
  const SepaCcLength := 2
  /** Length of the country code and the check digits together. */
  const SepaCcChecksumLength := SepaCcLength + 2
  const SepaMinLength := SepaCcChecksumLength + 1
  const SepaBusinessCode := "ZZZ"
  /** Letters count from 10: A=10, B=11, ... */
  const SepaShiftCc := 10
  const IbanChecksumModulo := 97

  /** `[A-Z]{2}\d{2,32}`: the shape of an IBAN, check digits not yet checked. */
  const IbanRegex: Regex :=
    Concat(Repeat(Upper, SepaCcLength, SepaCcLength), Repeat(Digit, 2, MaxCharIban - SepaCcLength))

  /** `[A-Z]{6}[A-Z2-9][A-NP-Z0-9]([A-Z0-9]{3})?`. */
  const BicRegex: Regex :=
    Concat(Repeat(Upper, 6, 6),
    Concat(Repeat(BicClass7, 1, 1),
    Concat(Repeat(BicClass8, 1, 1),
           Optional(Repeat(BicBranch, 3, 3)))))

  /** `([a-zA-Z0-9]|/| |-|\?|:|\(|\)|\.|,|'|\+)*`: every alternative is one
      character, so the pattern is the star of their union. */
  const MessageIdRegex: Regex :=
    Star([Range('a', 'z'), Range('A', 'Z'), Range('0', '9'), Range('/', '/'), Range(' ', ' '),
          Range('-', '-'), Range('?', '?'), Range(':', ':'), Range('(', '('), Range(')', ')'),
          Range('.', '.'), Range(',', ','), Range('\'', '\''), Range('+', '+')])

  predicate IsUpper(c: char) {
    'A' <= c <= 'Z'
  }

  /** `s.replace(" ", "")`. */
  function StripSpaces(s: string): string {
    RemoveAll(s, " ")
  }

  /** `((int) c) - ((int) 'A') + SEPA_SHIFT_CC`: A=10, ..., Z=35. */
  function AlphabetCode(c: char): int {
    (c as int) - ('A' as int) + SepaShiftCc
  }

  /** The string handed to `BigInteger`: the account part, then the decimal codes
      of the two country letters, then the two check digits. */
  function Rearranged(t: string): string
    requires |t| >= SepaCcChecksumLength
  {
    t[SepaCcChecksumLength..] + IntToString(AlphabetCode(t[0])) + IntToString(AlphabetCode(t[1]))
      + t[SepaCcLength..SepaCcChecksumLength]
  }

  /** The verdict of `isValidIban`, stated with the regex and the remainder of
      the whole rearranged number. */
  ghost predicate IbanAccepted(iban: Option<string>) {
    && iban.Some?
    && iban.value != ""
    && var t := StripSpaces(iban.value);
    && Matches(IbanRegex, t)
    && |t| >= SepaMinLength
    && AlphabetCode(t[0]) >= SepaShiftCc
    && AlphabetCode(t[1]) >= SepaShiftCc
    && AllDigits(Rearranged(t))
    && Value(Rearranged(t)) % IbanChecksumModulo == 1
  }

  /** Two upper-case letters followed by 2 to 32 digits, checked position by position. */
  predicate IbanShaped(t: string) {
    && SepaCcChecksumLength <= |t| <= MaxCharIban
    && IsUpper(t[0]) && IsUpper(t[1])
    && AllDigits(t[SepaCcLength..])
  }

  lemma IbanShapeIffRegex(t: string)
    ensures IbanShaped(t) <==> Matches(IbanRegex, t)
  {
    FixedPrefix(Upper, SepaCcLength, Repeat(Digit, 2, MaxCharIban - SepaCcLength), t);
    if |t| >= 2 {
      assert AllInClass(t[..2], Upper) <==> IsUpper(t[0]) && IsUpper(t[1]) by {
        assert t[..2][0] == t[0] && t[..2][1] == t[1];
        if IsUpper(t[0]) && IsUpper(t[1]) {
          forall i | 0 <= i < 2 ensures InClass(t[..2][i], Upper) {
            assert Upper[0].lo <= t[..2][i] <= Upper[0].hi;
          }
        }
        if AllInClass(t[..2], Upper) {
          assert InClass(t[..2][0], Upper) && InClass(t[..2][1], Upper);
        }
      }
      assert AllInClass(t[2..], Digit) <==> AllDigits(t[2..]) by {
        if AllDigits(t[2..]) {
          forall i | 0 <= i < |t[2..]| ensures InClass(t[2..][i], Digit) {
            assert Digit[0].lo <= t[2..][i] <= Digit[0].hi;
          }
        }
      }
    }
  }

  /** A letter code is two decimal digits, so the rearranged string is all digits
      and `new BigInteger` never fails on it. */
  lemma RearrangedIsDigits(t: string)
    requires IbanShaped(t)
    ensures AllDigits(Rearranged(t))
  {
    var a, b := AlphabetCode(t[0]), AlphabetCode(t[1]);
    assert IntToString(a) == NatToString(a);
    assert IntToString(b) == NatToString(b);
    var bban, cd := t[SepaCcChecksumLength..], t[SepaCcLength..SepaCcChecksumLength];
    assert AllDigits(bban) by {
      forall i | 0 <= i < |bban| ensures IsDigit(bban[i]) {
        assert bban[i] == t[SepaCcLength..][i + 2];
      }
    }
    assert AllDigits(cd) by {
      forall i | 0 <= i < |cd| ensures IsDigit(cd[i]) {
        assert cd[i] == t[SepaCcLength..][i];
      }
    }
    ValueAppend(bban, NatToString(a));
    ValueAppend(bban + NatToString(a), NatToString(b));
    ValueAppend(bban + NatToString(a) + NatToString(b), cd);
  }

  /** `isValidIban`: strip spaces, check the shape, then require the rearranged
      number to leave remainder 1 modulo 97. The remainder is computed digit by
      digit; the contract states it for the whole number. */
  function IsValidIban(iban: Option<string>): (valid: bool)
    ensures valid <==> IbanAccepted(iban)
    ensures iban.None? || iban.value == "" ==> !valid
  {
    if iban.None? || iban.value == "" then false
    else
      var t := StripSpaces(iban.value);
      IbanShapeIffRegex(t);
      if !IbanShaped(t) || |t| < SepaMinLength then false
      else
        RearrangedIsDigits(t);
        RemainderFoldIsRemainder(Rearranged(t), IbanChecksumModulo);
        RemainderFold(Rearranged(t), IbanChecksumModulo) == 1
  }

  /** An accepted IBAN, once its spaces are gone, is two upper-case letters
      followed by digits only, 5 to 34 characters long. */
  lemma AcceptedIbanShape(iban: Option<string>)
    requires IsValidIban(iban)
    ensures var t := StripSpaces(iban.value);
      && SepaMinLength <= |t| <= MaxCharIban
      && IsUpper(t[0]) && IsUpper(t[1])
      && AllDigits(t[SepaCcLength..])
  {
    IbanShapeIffRegex(StripSpaces(iban.value));
  }

  /** Spaces are removed before anything is checked, so inserting a space
      anywhere never changes the verdict. */
  lemma IbanIgnoresSpaces(a: string, b: string)
    ensures IsValidIban(Some(a + " " + b)) == IsValidIban(Some(a + b))
  {
    StripInsertedSpace(a, b);
    if a + b == "" {
      assert StripSpaces(a + " " + b) == "";
      IbanShapeIffRegex("");
    } else {
      VerdictDependsOnStripped(a + " " + b, a + b);
    }
  }

  lemma StripInsertedSpace(a: string, b: string)
    ensures StripSpaces(a + " " + b) == StripSpaces(a + b)
  {
    var x, y := StripSpaces(a), StripSpaces(b);
    assert StripSpaces(" ") == "" by {
      assert StartsWith(" ", " ");
    }
    RemoveCharDistributes(a, " ", ' ');
    assert StripSpaces(a + " ") == x;
    RemoveCharDistributes(a + " ", b, ' ');
    assert StripSpaces(a + " " + b) == x + y;
    RemoveCharDistributes(a, b, ' ');
  }

  /** Apart from the emptiness test, only the space-free string matters. */
  lemma VerdictDependsOnStripped(x: string, y: string)
    requires x != "" && y != "" && StripSpaces(x) == StripSpaces(y)
    ensures IsValidIban(Some(x)) == IsValidIban(Some(y))
  {
    assert IbanAccepted(Some(x)) == IbanAccepted(Some(y));
  }

  /** Position by position form of `BicRegex`. */
  predicate BicShaped(s: string) {
    && (|s| == 8 || |s| == 11)
    && (forall i :: 0 <= i < 6 ==> IsUpper(s[i]))
    && (IsUpper(s[6]) || '2' <= s[6] <= '9')
    && ('A' <= s[7] <= 'N' || 'P' <= s[7] <= 'Z' || IsDigit(s[7]))
    && (forall i :: 8 <= i < |s| ==> IsUpper(s[i]) || IsDigit(s[i]))
  }

  lemma BicShapeIffRegex(s: string)
    ensures BicShaped(s) <==> Matches(BicRegex, s)
  {
    var tail := Optional(Repeat(BicBranch, 3, 3));
    FixedPrefix(Upper, 6, Concat(Repeat(BicClass7, 1, 1), Concat(Repeat(BicClass8, 1, 1), tail)), s);
    if |s| >= 6 {
      FixedPrefix(BicClass7, 1, Concat(Repeat(BicClass8, 1, 1), tail), s[6..]);
      if |s| >= 7 {
        FixedPrefix(BicClass8, 1, tail, s[7..]);
        assert s[6..][..1] == [s[6]] && s[6..][1..] == s[7..];
        BicClass7Members(s[6]);
        BicUpperPrefix(s);
        if |s| >= 8 {
          assert s[7..][..1] == [s[7]] && s[7..][1..] == s[8..];
          BicClass8Members(s[7]);
          BicBranchTail(s);
        }
      }
    }
  }

  /** `[A-Z2-9]`, `[A-NP-Z0-9]` and `[A-Z0-9]` of `BicRegex`. */
  const BicClass7: CharClass := [Range('A', 'Z'), Range('2', '9')]
  const BicClass8: CharClass := [Range('A', 'N'), Range('P', 'Z'), Range('0', '9')]
  const BicBranch: CharClass := [Range('A', 'Z'), Range('0', '9')]

  lemma BicClass7Members(c: char)
    ensures InClass(c, BicClass7) <==> IsUpper(c) || '2' <= c <= '9'
  {
    if '2' <= c <= '9' { assert BicClass7[1].lo <= c <= BicClass7[1].hi; }
    if IsUpper(c) { assert BicClass7[0].lo <= c <= BicClass7[0].hi; }
  }

  lemma BicClass8Members(c: char)
    ensures InClass(c, BicClass8) <==> 'A' <= c <= 'N' || 'P' <= c <= 'Z' || IsDigit(c)
  {
    if 'A' <= c <= 'N' { assert BicClass8[0].lo <= c <= BicClass8[0].hi; }
    if 'P' <= c <= 'Z' { assert BicClass8[1].lo <= c <= BicClass8[1].hi; }
    if IsDigit(c) { assert BicClass8[2].lo <= c <= BicClass8[2].hi; }
  }

  lemma BicUpperPrefix(s: string)
    requires |s| >= 6
    ensures AllInClass(s[..6], Upper) <==> forall i :: 0 <= i < 6 ==> IsUpper(s[i])
  {
    assert forall i :: 0 <= i < 6 ==> s[..6][i] == s[i];
    if forall i :: 0 <= i < 6 ==> IsUpper(s[i]) {
      forall i | 0 <= i < 6 ensures InClass(s[..6][i], Upper) {
        assert Upper[0].lo <= s[..6][i] <= Upper[0].hi;
      }
    }
  }

  lemma BicBranchTail(s: string)
    requires |s| >= 8
    ensures AllInClass(s[8..], BicBranch) <==> forall i :: 8 <= i < |s| ==> IsUpper(s[i]) || IsDigit(s[i])
  {
    var rest := s[8..];
    assert forall i :: 8 <= i < |s| ==> rest[i - 8] == s[i];
    if forall i :: 8 <= i < |s| ==> IsUpper(s[i]) || IsDigit(s[i]) {
      forall i | 0 <= i < |rest| ensures InClass(rest[i], BicBranch) {
        assert s[i + 8] == rest[i];
        if IsUpper(rest[i]) {
          assert BicBranch[0].lo <= rest[i] <= BicBranch[0].hi;
        } else {
          assert BicBranch[1].lo <= rest[i] <= BicBranch[1].hi;
        }
      }
    }
    if AllInClass(rest, BicBranch) {
      forall i | 8 <= i < |s| ensures IsUpper(s[i]) || IsDigit(s[i]) {
        assert InClass(rest[i - 8], BicBranch);
      }
    }
  }

  /** `isValidBic`: a non-null string matching `BicRegex`; hence 8 or 11
      characters long. */
  function IsValidBic(bic: Option<string>): (valid: bool)
    ensures valid <==> bic.Some? && Matches(BicRegex, bic.value)
    ensures valid ==> |bic.value| == 8 || |bic.value| == 11
  {
    if bic.None? then false
    else
      BicShapeIffRegex(bic.value);
      BicShaped(bic.value)
  }

  /** The characters the message-id pattern admits. */
  predicate IsMessageIdChar(c: char) {
    || 'a' <= c <= 'z' || 'A' <= c <= 'Z' || '0' <= c <= '9'
    || c == '/' || c == ' ' || c == '-' || c == '?' || c == ':' || c == '('
    || c == ')' || c == '.' || c == ',' || c == '\'' || c == '+'
  }

  lemma MessageIdCharIffClass(c: char)
    ensures IsMessageIdChar(c) <==> InClass(c, MessageIdRegex.starred)
  {
    var cls := MessageIdRegex.starred;
    if IsMessageIdChar(c) {
      if 'a' <= c <= 'z' { assert cls[0].lo <= c <= cls[0].hi; }
      else if 'A' <= c <= 'Z' { assert cls[1].lo <= c <= cls[1].hi; }
      else if '0' <= c <= '9' { assert cls[2].lo <= c <= cls[2].hi; }
      else if c == '/' { assert cls[3].lo <= c <= cls[3].hi; }
      else if c == ' ' { assert cls[4].lo <= c <= cls[4].hi; }
      else if c == '-' { assert cls[5].lo <= c <= cls[5].hi; }
      else if c == '?' { assert cls[6].lo <= c <= cls[6].hi; }
      else if c == ':' { assert cls[7].lo <= c <= cls[7].hi; }
      else if c == '(' { assert cls[8].lo <= c <= cls[8].hi; }
      else if c == ')' { assert cls[9].lo <= c <= cls[9].hi; }
      else if c == '.' { assert cls[10].lo <= c <= cls[10].hi; }
      else if c == ',' { assert cls[11].lo <= c <= cls[11].hi; }
      else if c == '\'' { assert cls[12].lo <= c <= cls[12].hi; }
      else { assert cls[13].lo <= c <= cls[13].hi; }
    }
  }

  /** `isValidMessageId`: non-null, only admitted characters, at most 35 of
      them; the empty id is accepted. */
  function IsValidMessageId(messageId: Option<string>): (valid: bool)
    ensures valid <==> && messageId.Some?
                       && Matches(MessageIdRegex, messageId.value)
                       && |messageId.value| <= MaxCharMessageId
  {
    if messageId.None? then false
    else
      var s := messageId.value;
      assert (forall i :: 0 <= i < |s| ==> IsMessageIdChar(s[i])) <==> AllInClass(s, MessageIdRegex.starred) by {
        forall i | 0 <= i < |s| ensures IsMessageIdChar(s[i]) <==> InClass(s[i], MessageIdRegex.starred) {
          MessageIdCharIffClass(s[i]);
        }
      }
      (forall i :: 0 <= i < |s| ==> IsMessageIdChar(s[i])) && |s| <= MaxCharMessageId
  }

  /** Deleting the business code from a space-free string leaves it space-free,
      so the second space removal inside `isValidIban` changes nothing. */
  lemma CodeRemovalKeepsSpacesOut(s: string)
    ensures var rest := RemoveAll(StripSpaces(s), SepaBusinessCode);
      StripSpaces(rest) == rest
  {
    var t := StripSpaces(s);
    var rest := RemoveAll(t, SepaBusinessCode);
    RemoveCharContents(s, ' ');
    RemoveAllSubMultiset(t, SepaBusinessCode);
    assert multiset(t)[' '] == 0;
    assert multiset(rest)[' '] == 0;
    ContainsCharIffIn(rest, ' ');
  }

  /** `isValidCreditorId`: strip spaces, require the business code `ZZZ`, delete
      every `ZZZ` and check what is left as an IBAN. What is left has at least 5
      characters, so an accepted creditor id has at least 8 non-space ones. */
  function IsValidCreditorId(creditorId: Option<string>): (valid: bool)
    ensures valid <==> && creditorId.Some?
                       && Contains(StripSpaces(creditorId.value), SepaBusinessCode)
                       && IbanAccepted(Some(RemoveAll(StripSpaces(creditorId.value), SepaBusinessCode)))
    ensures valid ==> |StripSpaces(creditorId.value)| >= SepaMinLength + |SepaBusinessCode|
  {
    if creditorId.None? then false
    else
      var t := StripSpaces(creditorId.value);
      var rest := RemoveAll(t, SepaBusinessCode);
      var valid := Contains(t, SepaBusinessCode) && IsValidIban(Some(rest));
      if valid then
        AcceptedIbanShape(Some(rest));
        CodeRemovalKeepsSpacesOut(creditorId.value);
        valid
      else valid
  }

  /** Spaces are removed before the business code is looked for, so inserting a
      space never changes the creditor-id verdict either. */
  lemma CreditorIdIgnoresSpaces(a: string, b: string)
    ensures IsValidCreditorId(Some(a + " " + b)) == IsValidCreditorId(Some(a + b))
  {
    StripInsertedSpace(a, b);
  }

  /** An IBAN has only digits after its two letters, so it never holds `ZZZ`:
      no string is accepted both as an IBAN and as a creditor id. */
  lemma IbanIsNeverCreditorId(s: string)
    requires IsValidIban(Some(s))
    ensures !IsValidCreditorId(Some(s))
  {
    AcceptedIbanShape(Some(s));
    NoBusinessCodeAmongDigits(StripSpaces(s));
  }

  lemma NoBusinessCodeAmongDigits(t: string)
    requires |t| >= SepaCcLength && AllDigits(t[SepaCcLength..])
    ensures !Contains(t, SepaBusinessCode)
  {
    ContainsIffOccurs(t, SepaBusinessCode);
    forall i ensures !OccursAt(t, SepaBusinessCode, i) {
      if 0 <= i && i + |SepaBusinessCode| <= |t| {
        var digit := t[SepaCcLength..][i];
        assert IsDigit(digit);
        assert digit == t[i + 2] == t[i..i + |SepaBusinessCode|][2];
        assert digit != SepaBusinessCode[2];
      }
    }
  }
}

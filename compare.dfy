/**
 * The two revisions of the server side by side: where their answers agree, where they
 * differ, and what the digit fallback really sees once `json.loads` has had its turn.
 */
module Compare {
  import opened Wrappers
  import opened Text
  import opened Json
  import opened Auth
  import opened Recovery
  import opened Ingest
  import opened Clean
  import Server
  import ServerFinal
  import Client

  /** Both servers and the client hold the same secret bytes. */
  lemma SharedSecret()
    ensures Server.SECRET_KEY == ServerFinal.SECRET_KEY == Client.SECRET_KEY
  {
  }

  /**
   * On text that is not JSON the revisions answer alike, although they try the digit
   * check and the pattern in opposite orders, except where the number they recover is
   * too long for `int()`: there the first revision lets the error escape, while the later
   * one answers an error of its own. Neither stores anything.
   */
  lemma NonJsonAnswersAgree(h: MacFn, s: string)
    ensures Server.HandlePut(h, s, DecodeError) == ServerFinal.HandlePut(h, s, DecodeError) <==>
      if IsDigitString(s) then IntConverts(s) else !FindsField(s) || IntConverts(Search(s, 0).value)
    ensures Server.HandlePut(h, s, DecodeError) != ServerFinal.HandlePut(h, s, DecodeError) ==>
      Server.HandlePut(h, s, DecodeError) == Outcome(Crash, None) &&
      ServerFinal.HandlePut(h, s, DecodeError).response in {InvalidJson, Error} &&
      ServerFinal.HandlePut(h, s, DecodeError).stored.None?
  {
    if IsDigitString(s) {
      DigitsHaveNoField(s);
    }
  }

  /**
   * A digit string too long for `int()` that is not JSON (it has a leading zero): the
   * first revision crashes in its digit check, the later one swallows the error in its
   * bare `except` and answers `ERROR: invalid JSON`.
   */
  lemma LongDigitsDisagree(h: MacFn, s: string)
    requires IsDigitString(s) && !IntConverts(s)
    ensures Server.HandlePut(h, s, DecodeError) == Outcome(Crash, None)
    ensures ServerFinal.HandlePut(h, s, DecodeError) == Outcome(InvalidJson, None)
  {
    DigitsHaveNoField(s);
  }

  /**
   * The revisions differ on a parsed text exactly when it is JSON but not an object; when
   * `json.loads` itself raises an error other than a decoding error, the first revision
   * crashes and the later one answers `ERROR`.
   */
  lemma AnswersDifferOnlyOnNonObjects(h: MacFn, s: string, parsed: Loaded)
    ensures parsed.Parsed? ==>
      (Server.HandlePut(h, s, parsed) != ServerFinal.HandlePut(h, s, parsed) <==> !parsed.value.JObj?)
    ensures parsed.Raised? ==>
      Server.HandlePut(h, s, parsed) == Outcome(Crash, None) &&
      ServerFinal.HandlePut(h, s, parsed) == Outcome(Error, None)
  {
    SharedSecret();
  }

  /**
   * What `json.loads` does with a digit string: a number when it has no leading zero and
   * fits the digit limit, a `ValueError` when it has no leading zero but is too long, and
   * a decoding error otherwise (JSON forbids leading zeros).
   */
  predicate LoadsDigitsLikeJson(s: string, parsed: Loaded) {
    IsDigitString(s) ==>
      parsed ==
        if !IsCanonicalDigits(s) then DecodeError
        else if IntConverts(s) then Parsed(JInt(DigitsValue(s)))
        else Raised
  }

  /**
   * A digit string reaches the digit fallback only when it has a leading zero; a plain
   * number such as `75` parses as JSON and then fails the key lookup (or is too long to
   * parse): the first revision crashes and the later one answers `ERROR`. A string with a
   * leading zero is accepted when it fits the digit limit; past the limit the first
   * revision crashes and the later one answers `ERROR: invalid JSON`. Neither ever stores it.
   */
  lemma DigitStrings(h: MacFn, s: string, parsed: Loaded)
    requires IsDigitString(s) && LoadsDigitsLikeJson(s, parsed)
    ensures Server.HandlePut(h, s, parsed) ==
      if IsCanonicalDigits(s) then Outcome(Crash, None)
      else if IntConverts(s) then Outcome(Ok, None)
      else Outcome(Crash, None)
    ensures ServerFinal.HandlePut(h, s, parsed) ==
      if IsCanonicalDigits(s) then Outcome(Error, None)
      else if IntConverts(s) then Outcome(Ok, None)
      else Outcome(InvalidJson, None)
  {
    DigitsHaveNoField(s);
  }

  /**
   * `Temperature: 80` is not JSON; both revisions recover the reading through the pattern,
   * answer `OK`, and store nothing, since such a reading carries no tag.
   */
  lemma MalformedAccepted(h: MacFn)
    ensures Server.HandlePut(h, "Temperature: 80", DecodeError) == Outcome(Ok, None)
    ensures ServerFinal.HandlePut(h, "Temperature: 80", DecodeError) == Outcome(Ok, None)
  {
    MalformedExample();
  }

  /** Text without control characters is sanitised the same way by both revisions: it is stripped. */
  lemma SanitizersAgreeOnPlainText(raw: string)
    requires NoControl(raw)
    ensures Server.Sanitize(raw) == ServerFinal.Sanitize(raw) == Strip(raw)
  {
    assert '\0' !in raw by { NoControlHasNoNul(raw); }
    assert KeepPrintable(RemoveNul(raw)) == raw;
    var t := Strip(raw);
    assert Strip(t) == t;
    NoControlByMembership(t, raw);
    assert '\0' !in t by { NoControlHasNoNul(t); }
    assert KeepPrintable(RemoveNul(t)) == t;
  }

  /**
   * Stripping before filtering leaves the spaces a removed control character hid:
   * the later revision keeps a leading space the first one strips, and applying its
   * sanitisation again changes the text.
   */
  lemma SanitizersDiffer()
    ensures Server.Sanitize(" \U{1} 007") == "007"
    ensures ServerFinal.Sanitize(" \U{1} 007") == " 007"
    ensures ServerFinal.Sanitize(ServerFinal.Sanitize(" \U{1} 007")) != ServerFinal.Sanitize(" \U{1} 007")
  {
    var raw, hidden, padded, plain := " \U{1} 007", "\U{1} 007", " 007", "007";
    assert raw[0] == ' ' && raw[1..] == hidden;
    assert hidden[0] == '\U{1}' && hidden[1..] == padded;
    assert padded[0] == ' ' && padded[1..] == plain;
    assert plain[0] == '0' && plain[|plain| - 1] == '7' && NoControl(plain);
    DraftSanitizeShape(raw, hidden, padded, plain);
    FinalSanitizeShape(raw, hidden, padded, plain);
    FinalResanitizeShape(padded, plain);
  }

  /**
   * The shape behind the example: a space, a control character, then `plain` behind
   * one space. The first revision filters, then strips.
   */
  lemma DraftSanitizeShape(raw: string, hidden: string, padded: string, plain: string)
    requires raw != [] && raw[0] == ' ' && raw[1..] == hidden
    requires hidden != [] && hidden[0] == '\U{1}' && hidden[1..] == padded
    requires padded != [] && padded[0] == ' ' && padded[1..] == plain
    requires plain != [] && !IsPySpace(plain[0]) && !IsPySpace(plain[|plain| - 1]) && NoControl(plain)
    ensures Server.Sanitize(raw) == plain
  {
    assert NoControl(padded) by { assert padded == [' '] + plain; }
    FilterDrops(raw, hidden, padded);
    var filtered := [raw[0]] + padded;
    assert filtered[1..] == padded;
    StripPrefix(filtered, padded, plain);
  }

  /** The later revision strips (twice), which keeps the control character, then filters. */
  lemma FinalSanitizeShape(raw: string, hidden: string, padded: string, plain: string)
    requires raw != [] && raw[0] == ' ' && raw[1..] == hidden
    requires hidden != [] && hidden[0] == '\U{1}' && hidden[1..] == padded
    requires padded != [] && padded[0] == ' ' && padded[1..] == plain
    requires plain != [] && !IsPySpace(plain[0]) && !IsPySpace(plain[|plain| - 1]) && NoControl(plain)
    ensures ServerFinal.Sanitize(raw) == padded
  {
    assert NoControl(padded) by { assert padded == [' '] + plain; }
    StripExposes(raw, hidden);
    FilterDrops(hidden, hidden, padded);
  }

  lemma StripExposes(raw: string, hidden: string)
    requires raw != [] && raw[0] == ' ' && raw[1..] == hidden
    requires hidden != [] && hidden[0] == '\U{1}' && !IsPySpace(hidden[|hidden| - 1])
    ensures Strip(raw) == hidden && Strip(hidden) == hidden
  {
    LStripKeep(hidden);
    RStripKeep(hidden);
    LStripDrop(raw);
    assert LStrip(raw) == hidden;
  }

  /** Sanitising the later revision's answer again strips the space it kept. */
  lemma FinalResanitizeShape(padded: string, plain: string)
    requires padded != [] && padded[0] == ' ' && padded[1..] == plain
    requires plain != [] && !IsPySpace(plain[0]) && !IsPySpace(plain[|plain| - 1]) && NoControl(plain)
    ensures ServerFinal.Sanitize(padded) == plain != padded
  {
    StripPrefix(padded, padded, plain);
    assert Strip(plain) == plain;
    assert |plain| < |padded|;
  }

  /** Filtering a text whose only control character is the `\x01` that starts `hidden`. */
  lemma FilterDrops(raw: string, hidden: string, padded: string)
    requires raw == hidden || (raw != [] && Printable(raw[0]) && raw[0] != '\0' && raw[1..] == hidden)
    requires hidden != [] && hidden[0] == '\U{1}' && hidden[1..] == padded && NoControl(padded)
    ensures KeepPrintable(RemoveNul(raw)) == if raw == hidden then padded else [raw[0]] + padded
  {
    assert RemoveNul(padded) == padded;
    assert RemoveNul(hidden) == hidden by { assert hidden == [hidden[0]] + padded; }
    assert KeepPrintable(hidden) == padded;
    if raw != hidden {
      assert RemoveNul(raw) == raw by { assert raw == [raw[0]] + hidden; }
    }
  }

  /** `strip()` of a text that is `plain` behind one or two leading spaces. */
  lemma StripPrefix(s: string, padded: string, plain: string)
    requires s == padded || (s != [] && s[0] == ' ' && s[1..] == padded)
    requires padded != [] && padded[0] == ' ' && padded[1..] == plain
    requires plain != [] && !IsPySpace(plain[0]) && !IsPySpace(plain[|plain| - 1])
    ensures Strip(s) == plain
  {
    if s != padded {
      LStripDrop(s);
    }
    LStripDrop(padded);
    LStripKeep(plain);
    RStripKeep(plain);
  }

  lemma LStripKeep(s: string)
    requires s != [] && !IsPySpace(s[0])
    ensures LStrip(s) == s
  {
  }

  lemma LStripDrop(s: string)
    requires s != [] && IsPySpace(s[0])
    ensures LStrip(s) == LStrip(s[1..])
  {
  }

  lemma RStripKeep(s: string)
    requires s != [] && !IsPySpace(s[|s| - 1])
    ensures RStrip(s) == s
  {
  }

  /**
   * The same raw bytes, `" \x01 007"` (not JSON after either sanitisation), are accepted
   * as a bare number by the first revision and rejected as invalid JSON by the later one.
   */
  lemma SanitizeOrderChangesAnswer(h: MacFn)
    ensures Server.HandlePut(h, Server.Sanitize(" \U{1} 007"), DecodeError) == Outcome(Ok, None)
    ensures ServerFinal.HandlePut(h, ServerFinal.Sanitize(" \U{1} 007"), DecodeError) == Outcome(InvalidJson, None)
  {
    SanitizersDiffer();
    var padded, plain := " 007", "007";
    assert plain[0] == '0' && plain[1] == '0' && plain[2] == '7';
    DraftTakesDigits(h, plain);
    assert padded[0] == ' ';
    FinalRejectsShortText(h, padded);
  }

  lemma DraftTakesDigits(h: MacFn, s: string)
    requires |s| == 3 && IsDigit(s[0]) && IsDigit(s[1]) && IsDigit(s[2])
    ensures Server.HandlePut(h, s, DecodeError) == Outcome(Ok, None)
  {
    assert IsDigitString(s);
  }

  lemma FinalRejectsShortText(h: MacFn, s: string)
    requires |s| < |FIELD| + 2 && s != [] && !IsDigit(s[0])
    ensures ServerFinal.HandlePut(h, s, DecodeError) == Outcome(InvalidJson, None)
  {
    ShortTextHasNoField(s);
  }

  /** The pattern needs at least the field name, a colon and a digit. */
  lemma ShortTextHasNoField(s: string)
    requires |s| < |FIELD| + 2
    ensures !FindsField(s)
  {
    forall k | 0 <= k <= |s|
      ensures MatchAt(s, k).None?
    {
    }
    SearchFinds(s, 0);
  }
}

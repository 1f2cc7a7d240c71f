/** The two format checks of `ContactManager`: `validate_phone` matches
    `^\(\d{3}\) \d{3}-\d{4}$` and `validate_email` matches
    `^[\w\.-]+@[\w\.-]+\.\w+$`, both with `re.match`. In Python `$` matches at the
    end of the string and also just before one final newline, so each check here
    accepts its pattern optionally followed by a single "\n". */
module Validators {
  import opened Text

  /** The fourteen characters `(ddd) ddd-dddd`. */
  predicate PhoneShape(s: string) {
    |s| == 14 && s[0] == '(' && AllDigits(s[1..4]) && s[4] == ')' && s[5] == ' '
    && AllDigits(s[6..9]) && s[9] == '-' && AllDigits(s[10..])
  }

  /** `validate_phone`: the pattern, or the pattern and one final newline. */
  predicate ValidatePhone(s: string) {
    PhoneShape(s) || (|s| == 15 && s[14] == '\n' && PhoneShape(s[..14]))
  }

  /** The three digit groups of a phone number, by length. */
  predicate PhoneParts(area: string, exchange: string, line: string) {
    |area| == 3 && |exchange| == 3 && |line| == 4
    && AllDigits(area) && AllDigits(exchange) && AllDigits(line)
  }

  /** The phone number written from its digit groups. */
  function PhoneText(area: string, exchange: string, line: string): string {
    "(" + area + ") " + exchange + "-" + line
  }

  /** A phone number is accepted exactly when it is three, three and four digits
      written as `(area) exchange-line`, with at most one newline after it. */
  lemma ValidatePhoneIff(s: string)
    ensures ValidatePhone(s) <==>
      exists area, exchange, line :: PhoneParts(area, exchange, line) &&
        (s == PhoneText(area, exchange, line) || s == PhoneText(area, exchange, line) + "\n")
  {
    if ValidatePhone(s) {
      var t := if |s| == 14 then s else s[..14];
      assert PhoneShape(t);
      var area, exchange, line := t[1..4], t[6..9], t[10..];
      assert t == PhoneText(area, exchange, line);
      assert PhoneParts(area, exchange, line);
      if |s| == 15 {
        assert s == t + "\n";
      } else {
        assert s == t;
      }
    }
    if exists area, exchange, line :: PhoneParts(area, exchange, line) &&
        (s == PhoneText(area, exchange, line) || s == PhoneText(area, exchange, line) + "\n") {
      var area, exchange, line :| PhoneParts(area, exchange, line) &&
        (s == PhoneText(area, exchange, line) || s == PhoneText(area, exchange, line) + "\n");
      var t := PhoneText(area, exchange, line);
      assert t[1..4] == area && t[6..9] == exchange && t[10..] == line;
      assert PhoneShape(t);
      if s == t + "\n" {
        assert s[..14] == t;
      }
    }
  }

  /** The regex class `[\w\.-]`. */
  predicate IsEmailChar(c: char) {
    IsWordChar(c) || c == '.' || c == '-'
  }

  predicate AllEmailChars(s: string) {
    forall i :: 0 <= i < |s| ==> IsEmailChar(s[i])
  }

  /** Length of the longest prefix of `s` drawn from `[\w\.-]`. */
  function EmailRun(s: string): (n: nat)
    ensures n <= |s|
    ensures forall k :: 0 <= k < n ==> IsEmailChar(s[k])
    ensures n < |s| ==> !IsEmailChar(s[n])
  {
    if s == [] || !IsEmailChar(s[0]) then 0 else 1 + EmailRun(s[1..])
  }

  /** Length of the longest suffix of `s` drawn from `\w`. */
  function WordTail(s: string): (n: nat)
    ensures n <= |s|
    ensures forall k :: |s| - n <= k < |s| ==> IsWordChar(s[k])
    ensures n < |s| ==> !IsWordChar(s[|s| - n - 1])
  {
    if s == [] || !IsWordChar(s[|s| - 1]) then 0 else 1 + WordTail(s[..|s| - 1])
  }

  /** The email pattern without the newline allowance. Neither `@` nor `.` can
      follow the last `.`, so the regex's choices are forced: the local part runs
      to the first character outside `[\w\.-]`, which must be the `@`, and the
      top-level domain is the longest run of word characters at the end. */
  predicate EmailShape(t: string) {
    var i := EmailRun(t);
    0 < i < |t| && t[i] == '@' &&
    var d := t[i + 1..];
    EmailRun(d) == |d| &&
    var w := WordTail(d);
    0 < w && w + 2 <= |d| && d[|d| - w - 1] == '.'
  }

  /** `validate_email`: the pattern, or the pattern and one final newline. */
  predicate ValidateEmail(s: string) {
    EmailShape(s) || (0 < |s| && s[|s| - 1] == '\n' && EmailShape(s[..|s| - 1]))
  }

  /** `t` reads as local part, `@` at `i`, domain, `.` at `j`, top-level domain:
      one way for `[\w\.-]+@[\w\.-]+\.\w+` to match all of `t`. */
  predicate SplitsAt(t: string, i: int, j: int) {
    0 < i && i + 1 < j && j + 1 < |t| && t[i] == '@' && t[j] == '.'
    && AllEmailChars(t[..i]) && AllEmailChars(t[i + 1..j]) && AllWordChars(t[j + 1..])
  }

  /** Some split of `t` matches the regex. */
  ghost predicate EmailSplits(t: string) {
    exists i, j :: SplitsAt(t, i, j)
  }

  /** The scan finds a split whenever it accepts. */
  lemma ShapeHasSplit(t: string)
    requires EmailShape(t)
    ensures EmailSplits(t)
  {
    var i := EmailRun(t);
    var d := t[i + 1..];
    var w := WordTail(d);
    var j := i + |d| - w;
    assert t[j] == d[|d| - w - 1];
    assert t[i + 1..j] == d[..|d| - w - 1];
    assert t[j + 1..] == d[|d| - w..];
    assert SplitsAt(t, i, j);
  }

  /** Any split forces the scan's choices, so the scan accepts. */
  lemma SplitGivesShape(t: string, i: int, j: int)
    requires SplitsAt(t, i, j)
    ensures EmailShape(t)
  {
    assert forall k :: 0 <= k < i ==> t[..i][k] == t[k];
    assert EmailRun(t) == i;
    var d := t[i + 1..];
    forall k | 0 <= k < |d|
      ensures IsEmailChar(d[k])
    {
      if k < j - i - 1 {
        assert d[k] == t[i + 1..j][k];
      } else if k > j - i - 1 {
        assert d[k] == t[j + 1..][k - (j - i)];
      }
    }
    assert EmailRun(d) == |d|;
    forall k | j - i <= k < |d|
      ensures IsWordChar(d[k])
    {
      assert d[k] == t[j + 1..][k - (j - i)];
    }
    assert WordTail(d) == |d| - (j - i);
  }

  /** The scanning definition agrees with the regex read as "some split exists". */
  lemma EmailShapeIff(t: string)
    ensures EmailShape(t) <==> EmailSplits(t)
  {
    if EmailShape(t) {
      ShapeHasSplit(t);
    }
    if EmailSplits(t) {
      var i, j :| SplitsAt(t, i, j);
      SplitGivesShape(t, i, j);
    }
  }

  /** An address is accepted exactly when it, or it less one final newline,
      splits as the regex requires. */
  lemma ValidateEmailIff(s: string)
    ensures ValidateEmail(s) <==>
      EmailSplits(s) || (0 < |s| && s[|s| - 1] == '\n' && EmailSplits(s[..|s| - 1]))
  {
    EmailShapeIff(s);
    if 0 < |s| {
      EmailShapeIff(s[..|s| - 1]);
    }
  }

  /** A split string holds its `@` at the split and nowhere else. */
  lemma {:induction false} SplitHasOneAt(t: string, i: int, j: int, k: int)
    requires SplitsAt(t, i, j) && 0 <= k < |t| && t[k] == '@'
    ensures k == i
  {
  }

  /** Every accepted address has exactly one `@`; before it a non-empty local
      part of `[\w\.-]`, after it a non-empty run of `[\w\.-]`, a `.` and a
      non-empty run of word characters reaching the end (SplitsAt), save for one
      final newline. */
  lemma ValidEmailParts(s: string)
    requires ValidateEmail(s)
    ensures exists at :: 0 <= at < |s| && s[at] == '@' && forall k :: 0 <= k < |s| && s[k] == '@' ==> k == at
    ensures EmailSplits(s) || (s[|s| - 1] == '\n' && EmailSplits(s[..|s| - 1]))
  {
    ValidateEmailIff(s);
    var t := if EmailSplits(s) then s else s[..|s| - 1];
    var i, j :| SplitsAt(t, i, j);
    forall k | 0 <= k < |s| && s[k] == '@'
      ensures k == i
    {
      if k < |t| {
        assert t[k] == s[k];
        SplitHasOneAt(t, i, j, k);
      }
    }
    assert s[i] == '@';
  }
}

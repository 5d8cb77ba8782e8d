/**
 * The identifier gates of backend/validation.py. Each predicate is the
 * semantics of `re.match(pattern, s)` for its pattern: `^` anchors at the
 * start, a character class followed by `*` may consume any run of class
 * characters (the regex engine backtracks over every length), and `$`
 * matches at the end of the text or just before a '\n' that ends it.
 */
module Validation {
  import opened Wrappers

  predicate IsAsciiLetter(c: char) {
    'a' <= c <= 'z' || 'A' <= c <= 'Z'
  }

  predicate IsAsciiDigit(c: char) {
    '0' <= c <= '9'
  }

  /** The class `[a-zA-Z_]`. */
  predicate IsIdentStart(c: char) {
    IsAsciiLetter(c) || c == '_'
  }

  /** The class `[a-zA-Z0-9_]`. */
  predicate IsIdentChar(c: char) {
    IsIdentStart(c) || IsAsciiDigit(c)
  }

  /** The class `[a-z0-9\-]`. */
  predicate IsBackupIdChar(c: char) {
    'a' <= c <= 'z' || IsAsciiDigit(c) || c == '-'
  }

  /** Python's `$` at position i: the end of s, or a '\n' that is the last character. */
  predicate EndAnchorAt(s: string, i: nat) {
    i == |s| || (i + 1 == |s| && s[i] == '\n')
  }

  /** Every character of s[from..to] is in the class. */
  predicate AllIn(inClass: char -> bool, s: string, from: nat, to: nat)
    requires from <= to <= |s|
  {
    forall i :: from <= i < to ==> inClass(s[i])
  }

  /** `[class]*$` matches s from position `from`: the star stops at some `to` where `$` holds. */
  predicate StarThenEnd(inClass: char -> bool, s: string, from: nat)
    requires from <= |s|
  {
    exists to :: from <= to <= |s| && AllIn(inClass, s, from, to) && EndAnchorAt(s, to)
  }

  /** `bool(re.match(r'^[a-zA-Z_][a-zA-Z0-9_]*$', s))` (backend/validation.py:7). */
  predicate IsValidIdentifier(s: string) {
    |s| > 0 && IsIdentStart(s[0]) && StarThenEnd(IsIdentChar, s, 1)
  }

  /** `bool(re.match(r'^[a-z0-9\-]*$', s))` (backend/validation.py:11). */
  predicate IsValidBackupIdentifier(s: string) {
    StarThenEnd(IsBackupIdChar, s, 0)
  }

  datatype ValidationError = InvalidIdentifier(identifier: string) | InvalidBackupIdentifier

  /** `validate_identifier`: raises exactly when the name is not a valid identifier. */
  function ValidateIdentifier(s: string): (r: Outcome<ValidationError>)
    ensures r == Pass <==> IsValidIdentifier(s)
    ensures r != Pass ==> r == Fail(InvalidIdentifier(s))
  {
    if IsValidIdentifier(s) then Pass else Fail(InvalidIdentifier(s))
  }

  /** `validate_backup_identifier`: raises exactly when the id is not a valid backup id. */
  function ValidateBackupIdentifier(s: string): (r: Outcome<ValidationError>)
    ensures r == Pass <==> IsValidBackupIdentifier(s)
    ensures r != Pass ==> r == Fail(InvalidBackupIdentifier)
  {
    if IsValidBackupIdentifier(s) then Pass else Fail(InvalidBackupIdentifier)
  }

  // ----- reference definitions, without regex machinery -----

  /** A letter or '_' followed by letters, digits and '_'. */
  predicate IsPlainIdentifier(s: string) {
    |s| > 0 && IsIdentStart(s[0]) && forall i :: 1 <= i < |s| ==> IsIdentChar(s[i])
  }

  /** Lower-case letters, digits and '-' only; the empty string qualifies. */
  predicate IsPlainBackupIdentifier(s: string) {
    forall i :: 0 <= i < |s| ==> IsBackupIdChar(s[i])
  }

  /** s is `body` or `body + "\n"` for a body satisfying `plain`. */
  predicate WithOptionalNewline(plain: string -> bool, s: string) {
    plain(s) || (|s| > 0 && s[|s| - 1] == '\n' && plain(s[..|s| - 1]))
  }

  /** `[class]*$` from `from` holds exactly when the rest is in the class, up to one final '\n'. */
  lemma StarThenEndIff(inClass: char -> bool, s: string, from: nat)
    requires from <= |s|
    requires !inClass('\n')
    ensures StarThenEnd(inClass, s, from) <==>
      (AllIn(inClass, s, from, |s|) ||
       (from < |s| && s[|s| - 1] == '\n' && AllIn(inClass, s, from, |s| - 1)))
  {
    if AllIn(inClass, s, from, |s|) {
      assert EndAnchorAt(s, |s|);
    } else if from < |s| && s[|s| - 1] == '\n' && AllIn(inClass, s, from, |s| - 1) {
      assert EndAnchorAt(s, |s| - 1);
    }
  }

  /** The identifier regex accepts exactly the plain identifiers, each also with one trailing '\n'. */
  lemma IdentifierCharacterization(s: string)
    ensures IsValidIdentifier(s) <==> WithOptionalNewline(IsPlainIdentifier, s)
  {
    if |s| > 0 {
      StarThenEndIff(IsIdentChar, s, 1);
      var t := s[..|s| - 1];
      if |s| > 1 {
        assert t[0] == s[0];
        assert AllIn(IsIdentChar, s, 1, |s| - 1) <==> forall i :: 1 <= i < |t| ==> IsIdentChar(t[i]) by {
          assert forall i :: 1 <= i < |t| ==> t[i] == s[i];
        }
      } else {
        assert !IsPlainIdentifier(t);
      }
    }
  }

  /** The backup-id regex accepts exactly the plain backup ids, each also with one trailing '\n'. */
  lemma BackupIdentifierCharacterization(s: string)
    ensures IsValidBackupIdentifier(s) <==> WithOptionalNewline(IsPlainBackupIdentifier, s)
  {
    StarThenEndIff(IsBackupIdChar, s, 0);
    if |s| > 0 {
      var t := s[..|s| - 1];
      assert forall i :: 0 <= i < |t| ==> t[i] == s[i];
    }
  }

  /** `$` lets one trailing '\n' through, but not two; the empty backup id is accepted. */
  lemma TrailingNewlineQuirk(body: string)
    requires IsPlainIdentifier(body)
    ensures IsValidIdentifier(body) && IsValidIdentifier(body + "\n")
    ensures !IsValidIdentifier(body + "\n\n")
    ensures IsValidBackupIdentifier("") && IsValidBackupIdentifier("\n")
  {
    IdentifierCharacterization(body);
    IdentifierCharacterization(body + "\n");
    assert (body + "\n")[..|body|] == body;
    var t := body + "\n\n";
    IdentifierCharacterization(t);
    assert t[|t| - 2] == '\n';
    assert !IsPlainIdentifier(t);
    assert !IsPlainIdentifier(t[..|t| - 1]) by {
      assert t[..|t| - 1][|t| - 2] == '\n';
    }
    BackupIdentifierCharacterization("");
    BackupIdentifierCharacterization("\n");
    assert "\n"[..0] == "";
  }

  /** A character outside the identifier classes, other than a final '\n', rejects the name. */
  lemma RejectedByChar(s: string, j: nat)
    requires j < |s|
    requires !(j == |s| - 1 && s[j] == '\n')
    requires if j == 0 then !IsIdentStart(s[0]) else !IsIdentChar(s[j])
    ensures !IsValidIdentifier(s)
  {
    IdentifierCharacterization(s);
    if j < |s| - 1 {
      var t := s[..|s| - 1];
      assert t[j] == s[j];
    }
  }

  /** The injection-style names of the API tests are all rejected. */
  lemma InjectionNamesRejected()
    ensures !IsValidIdentifier("test; DROP TABLE users;--")
    ensures !IsValidIdentifier("../../etc/passwd")
    ensures !IsValidIdentifier("`rm -rf /`")
    ensures !IsValidIdentifier("test$db")
    ensures !IsValidIdentifier("invalid name with spaces")
    ensures !IsValidIdentifier("' OR 1=1; --")
  {
    RejectedByChar("test; DROP TABLE users;--", 4);
    RejectedByChar("../../etc/passwd", 0);
    RejectedByChar("`rm -rf /`", 0);
    RejectedByChar("test$db", 4);
    RejectedByChar("invalid name with spaces", 7);
    RejectedByChar("' OR 1=1; --", 0);
  }

  /** A valid identifier contains no whitespace. */
  lemma ValidIdentifierHasNoSpace(s: string)
    requires IsValidIdentifier(s)
    ensures ' ' !in s && '\t' !in s
  {
    IdentifierCharacterization(s);
    forall i | 0 <= i < |s| ensures s[i] != ' ' && s[i] != '\t' {
      if !IsPlainIdentifier(s) && i < |s| - 1 {
        assert s[..|s| - 1][i] == s[i];
      }
    }
  }
}

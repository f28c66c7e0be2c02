/**
 The employee record and the Bean-Validation constraints declared on its
 fields. Each annotation except `@NotNull`, which only rejects null, is one
 `Constraint`; validating a candidate yields the set of constraints it
 violates, and a candidate is accepted exactly when that set is empty. The annotations carry no order, so the model tells valid from
 invalid and does not pick a "first" violation.
 */
module Employees {
  import opened Patterns

  /** A calendar date, counted in days. */
  type Day = int

  datatype Employee = Employee(
    id: string,
    name: string,
    email: string,
    phoneNumber: string,
    age: int,
    position: string,
    onLeave: bool,
    hireDate: Day,
    annualLeave: int)

  /** What validation needs from outside the record: the current date, and
      the `@Email` well-formedness check, which stays abstract. */
  datatype Env = Env(today: Day, isEmail: string -> bool)

  const Supervisor: string := "supervisor"
  const Coordinator: string := "coordinator"

  /** `[A-Za-z]` */
  const LetterRanges: seq<CharRange> := [CharRange('A', 'Z'), CharRange('a', 'z')]
  /** `\d`, which matches only ASCII digits unless UNICODE_CHARACTER_CLASS is set */
  const DigitRanges: seq<CharRange> := [CharRange('0', '9')]

  /** `^[A-Za-z]+$` */
  const NameRegex: Regex := Plus(Class(LetterRanges))
  /** `^05\d{8}$` */
  const PhoneRegex: Regex := Concat(Text("05"), Repeat(Class(DigitRanges), 8))
  /** `supervisor|coordinator` */
  const PositionRegex: Regex := Alt(Text(Supervisor), Text(Coordinator))

  /** One constructor per validation annotation on the record, except
      `@NotNull`: fields are never null here. */
  datatype Constraint =
    | IdSize
    | NameNotEmpty | NameSize | NamePattern
    | EmailNotBlank | EmailFormat
    | PhoneNotEmpty | PhonePattern
    | AgeMin | AgeMax
    | PositionNotEmpty | PositionPattern
    | OnLeaveFalse
    | HireDatePastOrPresent
    | AnnualLeavePositive

  const AllConstraints: set<Constraint> := {
    IdSize, NameNotEmpty, NameSize, NamePattern, EmailNotBlank, EmailFormat,
    PhoneNotEmpty, PhonePattern, AgeMin, AgeMax, PositionNotEmpty, PositionPattern,
    OnLeaveFalse, HireDatePastOrPresent, AnnualLeavePositive }

  /** `@NotBlank`: something other than the characters `String.trim` strips. */
  predicate NotBlank(s: string) {
    exists i :: 0 <= i < |s| && s[i] > ' '
  }

  /** Whether `e` meets the single annotation `c`. */
  predicate Satisfies(e: Employee, c: Constraint, env: Env) {
    match c
    case IdSize => |e.id| >= 3
    case NameNotEmpty => |e.name| > 0
    case NameSize => 5 <= |e.name| <= 15
    case NamePattern => Matches(NameRegex, e.name)
    case EmailNotBlank => NotBlank(e.email)
    case EmailFormat => env.isEmail(e.email)
    case PhoneNotEmpty => |e.phoneNumber| > 0
    case PhonePattern => Matches(PhoneRegex, e.phoneNumber)
    case AgeMin => e.age >= 26
    case AgeMax => e.age <= 65
    case PositionNotEmpty => |e.position| > 0
    case PositionPattern => Matches(PositionRegex, e.position)
    case OnLeaveFalse => !e.onLeave
    case HireDatePastOrPresent => e.hireDate <= env.today
    case AnnualLeavePositive => e.annualLeave > 0
  }

  /** The constraint violations validation reports for `e`. */
  function Violations(e: Employee, env: Env): set<Constraint> {
    set c | c in AllConstraints && !Satisfies(e, c, env)
  }

  /** The request body passes validation: no errors are bound, which is to
      say every annotation holds. */
  predicate Valid(e: Employee, env: Env)
    ensures Valid(e, env) <==> forall c :: c in AllConstraints ==> Satisfies(e, c, env)
  {
    assert forall c :: c in AllConstraints ==> (c in Violations(e, env) <==> !Satisfies(e, c, env));
    Violations(e, env) == {}
  }

  predicate IsAsciiLetter(c: char) {
    'A' <= c <= 'Z' || 'a' <= c <= 'z'
  }

  predicate IsDigit(c: char) {
    '0' <= c <= '9'
  }

  lemma LetterRangesAreLetters(c: char)
    ensures InClass(c, LetterRanges) <==> IsAsciiLetter(c)
  {
    if 'A' <= c <= 'Z' {
      assert LetterRanges[0].lo <= c <= LetterRanges[0].hi;
    } else if 'a' <= c <= 'z' {
      assert LetterRanges[1].lo <= c <= LetterRanges[1].hi;
    }
  }

  lemma DigitRangesAreDigits(c: char)
    ensures InClass(c, DigitRanges) <==> IsDigit(c)
  {
    if IsDigit(c) {
      assert DigitRanges[0].lo <= c <= DigitRanges[0].hi;
    }
  }

  /** The name pattern accepts exactly the non-empty strings of ASCII letters. */
  lemma NamePatternMatches(s: string)
    ensures Matches(NameRegex, s) <==> |s| >= 1 && forall i :: 0 <= i < |s| ==> IsAsciiLetter(s[i])
  {
    PlusClassMatches(LetterRanges, s);
    forall i | 0 <= i < |s| {
      LetterRangesAreLetters(s[i]);
    }
  }

  /** The phone pattern accepts exactly ten digits of which the first two are `0` and `5`. */
  lemma PhonePatternMatches(s: string)
    ensures Matches(PhoneRegex, s)
        <==> |s| == 10 && s[0] == '0' && s[1] == '5' && forall i :: 0 <= i < |s| ==> IsDigit(s[i])
  {
    TextThen("05", Repeat(Class(DigitRanges), 8), s);
    if |s| >= 2 {
      RepeatClassMatches(DigitRanges, 8, s[2..]);
      forall i | 0 <= i < |s| {
        DigitRangesAreDigits(s[i]);
      }
      forall i | 0 <= i < |s[2..]| ensures s[2..][i] == s[i + 2] {}
      if s[..2] == "05" {
        assert s[0] == s[..2][0] && s[1] == s[..2][1];
      }
      if |s| == 10 && s[0] == '0' && s[1] == '5' {
        assert s[..2] == "05";
      }
    }
  }

  /** The position pattern accepts the two position names and nothing else. */
  lemma PositionPatternMatches(s: string)
    ensures Matches(PositionRegex, s) <==> s == Supervisor || s == Coordinator
  {
  }

  /**
   Validation accepts a record exactly when every field meets its rule: an id
   of at least three characters, a name of 5 to 15 ASCII letters, a non-blank
   well-formed email, a phone number of ten digits starting with `05`, an age
   from 26 to 65, one of the two positions, not on leave, hired no later than
   today, and a positive leave balance.
   */
  lemma ValidIff(e: Employee, env: Env)
    ensures Valid(e, env) <==>
      && |e.id| >= 3
      && 5 <= |e.name| <= 15
      && (forall i :: 0 <= i < |e.name| ==> IsAsciiLetter(e.name[i]))
      && NotBlank(e.email) && env.isEmail(e.email)
      && |e.phoneNumber| == 10 && e.phoneNumber[0] == '0' && e.phoneNumber[1] == '5'
      && (forall i :: 0 <= i < |e.phoneNumber| ==> IsDigit(e.phoneNumber[i]))
      && 26 <= e.age <= 65
      && (e.position == Supervisor || e.position == Coordinator)
      && !e.onLeave
      && e.hireDate <= env.today
      && e.annualLeave > 0
  {
    EachConstraint(e, env);
    NameRules(e, env);
    PhoneRules(e, env);
    PositionRules(e, env);
  }

  lemma NameRules(e: Employee, env: Env)
    ensures Satisfies(e, NameNotEmpty, env) && Satisfies(e, NameSize, env) && Satisfies(e, NamePattern, env)
        <==> 5 <= |e.name| <= 15 && forall i :: 0 <= i < |e.name| ==> IsAsciiLetter(e.name[i])
  {
    NamePatternMatches(e.name);
  }

  lemma PhoneRules(e: Employee, env: Env)
    ensures Satisfies(e, PhoneNotEmpty, env) && Satisfies(e, PhonePattern, env)
        <==> && |e.phoneNumber| == 10 && e.phoneNumber[0] == '0' && e.phoneNumber[1] == '5'
             && forall i :: 0 <= i < |e.phoneNumber| ==> IsDigit(e.phoneNumber[i])
  {
    PhonePatternMatches(e.phoneNumber);
  }

  lemma PositionRules(e: Employee, env: Env)
    ensures Satisfies(e, PositionNotEmpty, env) && Satisfies(e, PositionPattern, env)
        <==> e.position == Supervisor || e.position == Coordinator
  {
    PositionPatternMatches(e.position);
  }

  lemma EachConstraint(e: Employee, env: Env)
    ensures (forall c :: c in AllConstraints ==> Satisfies(e, c, env)) <==>
      && Satisfies(e, IdSize, env)
      && Satisfies(e, NameNotEmpty, env) && Satisfies(e, NameSize, env) && Satisfies(e, NamePattern, env)
      && Satisfies(e, EmailNotBlank, env) && Satisfies(e, EmailFormat, env)
      && Satisfies(e, PhoneNotEmpty, env) && Satisfies(e, PhonePattern, env)
      && Satisfies(e, AgeMin, env) && Satisfies(e, AgeMax, env)
      && Satisfies(e, PositionNotEmpty, env) && Satisfies(e, PositionPattern, env)
      && Satisfies(e, OnLeaveFalse, env)
      && Satisfies(e, HireDatePastOrPresent, env)
      && Satisfies(e, AnnualLeavePositive, env)
  {
    assert IdSize in AllConstraints;
  }
}

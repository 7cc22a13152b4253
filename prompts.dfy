/**
  The three interactive prompts of `aws_mfa_helper/cli.py`: profile selection,
  token lifetime and manual MFA code entry. Each prompt reads lines until one
  is accepted; terminal input is modelled as the sequence of lines the operator
  will type, and each answer carries the lines left for the next prompt.
 */
module Prompts {
  import opened Wrappers
  import opened Decimal

  /** Section the parser always yields first; never offered as a profile. */
  const DefaultSection: string := "DEFAULT"

  /** Lifetime used when the operator enters a blank line. */
  const DefaultDuration: int := 86400
  /** Lifetime bounds, in seconds, as the prompt text documents them. */
  const MinDuration: int := 900
  const MaxDuration: int := 129600

  predicate EndsWith(s: string, suffix: string) {
    |suffix| <= |s| && s[|s| - |suffix|..] == suffix
  }

  /** A section the profile menu offers: not a derived MFA profile and not the default section. */
  predicate Selectable(name: string, suffix: string) {
    !EndsWith(name, suffix) && name != DefaultSection
  }

  /** The profile menu: the selectable section names, in iteration order. */
  function Choices(names: seq<string>, suffix: string): (r: seq<string>)
    ensures |r| <= |names|
    ensures forall x :: x in r <==> x in names && Selectable(x, suffix)
    ensures |names| == 1 ==> r == (if Selectable(names[0], suffix) then names else [])
  {
    if names == [] then []
    else
      var last := names[|names| - 1];
      Choices(names[..|names| - 1], suffix) + (if Selectable(last, suffix) then [last] else [])
  }

  /** The menu of a concatenation is the concatenation of the menus: entries keep the sections' order. */
  lemma {:induction false} ChoicesAppend(a: seq<string>, b: seq<string>, suffix: string)
    ensures Choices(a + b, suffix) == Choices(a, suffix) + Choices(b, suffix)
    decreases |b|
  {
    if b == [] {
      assert a + b == a;
    } else {
      var b' := b[..|b| - 1];
      assert (a + b)[..|a + b| - 1] == a + b';
      assert (a + b)[|a + b| - 1] == b[|b| - 1];
      ChoicesAppend(a, b', suffix);
    }
  }

  /** Distinct section names give a menu in which each name appears once. */
  lemma {:induction false} ChoicesDistinct(names: seq<string>, suffix: string)
    requires forall i, j :: 0 <= i < j < |names| ==> names[i] != names[j]
    ensures var r := Choices(names, suffix);
      forall i, j :: 0 <= i < j < |r| ==> r[i] != r[j]
  {
    if names != [] {
      var init := names[..|names| - 1];
      var last := names[|names| - 1];
      ChoicesDistinct(init, suffix);
      assert last !in init;
      assert last !in Choices(init, suffix);
    }
  }

  /** The menu line printed for the entry numbered `number`. */
  function MenuLine(number: nat, name: string): string {
    Show(number) + ": " + name
  }

  /**
    The first loop of `profile_selection`: walks the sections, keeps the
    selectable ones and numbers them from 1, printing one menu line each.
   */
  method ChoiceList(names: seq<string>, suffix: string) returns (choices: seq<string>, i: nat, menu: seq<string>)
    ensures choices == Choices(names, suffix)
    ensures i == |choices| == |menu|
    ensures forall k :: 0 <= k < i ==> menu[k] == MenuLine(k + 1, choices[k])
  {
    choices, i, menu := [], 0, [];
    for n := 0 to |names|
      invariant choices == Choices(names[..n], suffix)
      invariant i == |choices| == |menu|
      invariant forall k :: 0 <= k < i ==> menu[k] == MenuLine(k + 1, choices[k])
    {
      var key := names[n];
      assert names[..n + 1][..n] == names[..n];
      if Selectable(key, suffix) {
        i := i + 1;
        choices := choices + [key];
        menu := menu + [MenuLine(i, key)];
      }
    }
    assert names[..|names|] == names;
  }

  /**
    The test each prompt applies to a line. `ProfileAsWritten` and
    `DurationAsWritten` are the checks as the source writes them; `Profile` and
    `Duration` are the bounds the prompts document.
   */
  datatype Rule =
    | ProfileAsWritten(count: nat)
    | Profile(count: nat)
    | DurationAsWritten
    | Duration
    | MfaCode

  /**
    Every rule but the lifetime rules needs an integer; the lifetime rules also
    take a blank line. The profile rule as written compares the entry number
    less one with the half-open range from 0 to one past the entry count; the
    lifetime rule as written compares the number less one with the half-open
    range from 899 to 129601.
   */
  function Accepts(rule: Rule, line: string): (ok: bool)
    ensures ok && !rule.DurationAsWritten? && !rule.Duration? ==> ParseInt(line).Some?
    ensures ok && (rule.DurationAsWritten? || rule.Duration?) && line != "" ==>
      ParseInt(line).Some? && MinDuration <= ParseInt(line).value <= MaxDuration + 1
    ensures rule.Duration? && ok && line != "" ==> ParseInt(line).value <= MaxDuration
    ensures (rule.Profile? || rule.ProfileAsWritten?) && ok ==> 1 <= ParseInt(line).value <= rule.count + 1
    ensures rule.Profile? && ok ==> ParseInt(line).value <= rule.count
    ensures rule.MfaCode? ==> (ok <==> ParseInt(line).Some?)
    ensures (rule.Duration? || rule.DurationAsWritten?) && line == "" ==> ok
  {
    match rule
    case ProfileAsWritten(count) =>
      ParseInt(line).Some? && 0 <= ParseInt(line).value - 1 < count + 1
    case Profile(count) =>
      ParseInt(line).Some? && 1 <= ParseInt(line).value <= count
    case DurationAsWritten =>
      line == "" || (ParseInt(line).Some? && 899 <= ParseInt(line).value - 1 < 129601)
    case Duration =>
      line == "" || (ParseInt(line).Some? && MinDuration <= ParseInt(line).value <= MaxDuration)
    case MfaCode =>
      ParseInt(line).Some?
  }

  /** Index of the first line the rule accepts, if any. */
  function FirstAccepted(lines: seq<string>, rule: Rule): (r: Option<nat>)
    ensures r.Some? ==> r.value < |lines| && Accepts(rule, lines[r.value])
    ensures r.Some? ==> forall j :: 0 <= j < r.value ==> !Accepts(rule, lines[j])
    ensures r.None? <==> forall j :: 0 <= j < |lines| ==> !Accepts(rule, lines[j])
  {
    if lines == [] then None
    else if Accepts(rule, lines[0]) then Some(0)
    else
      match FirstAccepted(lines[1..], rule)
      case None => None
      case Some(k) => Some(k + 1)
  }

  /** The `while True` retry loop shared by the prompts: reads lines until one is accepted. */
  method ReadAccepted(input: seq<string>, rule: Rule) returns (r: Option<nat>)
    ensures r == FirstAccepted(input, rule)
  {
    var k := 0;
    while k < |input|
      invariant 0 <= k <= |input|
      invariant forall j :: 0 <= j < k ==> !Accepts(rule, input[j])
    {
      if Accepts(rule, input[k]) {
        return Some(k);
      }
      k := k + 1;
    }
    return None;
  }

  /**
    What a prompt yields: the accepted value and the input lines after it; or
    input that ends before any line is accepted; or the IndexError
    `choices[sel]` raises.
   */
  datatype Answer<T> =
    | Answered(value: T, rest: seq<string>)
    | Exhausted
    | IndexError(index: int)

  /** The lifetime handed to the token service: the integer default, or the accepted text unchanged. */
  datatype Lifetime = Seconds(seconds: int) | Typed(text: string)

  // ---------------------------------------------------------------- profile

  /** `profile_selection` as written: accepts 1..i+1, and entry i+1 does not exist. */
  function ProfileAnswerAsWritten(names: seq<string>, suffix: string, input: seq<string>): (r: Answer<string>)
    ensures r.IndexError? ==> r.index == |Choices(names, suffix)|
    ensures r.Answered? ==> r.value in names && Selectable(r.value, suffix)
    ensures r.Exhausted? <==> forall j :: 0 <= j < |input| ==> !Accepts(ProfileAsWritten(|Choices(names, suffix)|), input[j])
  {
    var choices := Choices(names, suffix);
    match FirstAccepted(input, ProfileAsWritten(|choices|))
    case None => Exhausted
    case Some(k) =>
      var sel := ParseInt(input[k]).value - 1;
      if sel < |choices| then Answered(choices[sel], input[k + 1..]) else IndexError(sel)
  }

  /** `profile_selection` with the documented bound 1..i. */
  function ProfileAnswer(names: seq<string>, suffix: string, input: seq<string>): Answer<string> {
    var choices := Choices(names, suffix);
    match FirstAccepted(input, Profile(|choices|))
    case None => Exhausted
    case Some(k) => Answered(choices[ParseInt(input[k]).value - 1], input[k + 1..])
  }

  method ProfileSelection(names: seq<string>, suffix: string, input: seq<string>) returns (r: Answer<string>)
    ensures r == ProfileAnswer(names, suffix, input)
  {
    var choices, i, menu := ChoiceList(names, suffix);
    var k := ReadAccepted(input, Profile(i));
    if k.None? {
      return Exhausted;
    }
    var sel := ParseInt(input[k.value]).value - 1;
    r := Answered(choices[sel], input[k.value + 1..]);
  }

  /** The selected profile is a section of the document that the menu offers; selection never fails with an IndexError. */
  lemma ProfileAnswerIsSelectable(names: seq<string>, suffix: string, input: seq<string>)
    ensures !ProfileAnswer(names, suffix, input).IndexError?
    ensures ProfileAnswer(names, suffix, input).Answered? ==>
      var p := ProfileAnswer(names, suffix, input).value;
      p in names && Selectable(p, suffix)
    ensures ProfileAnswer(names, suffix, input).Exhausted? <==>
      forall j :: 0 <= j < |input| ==> !Accepts(Profile(|Choices(names, suffix)|), input[j])
  {
  }

  /** Entry number n, typed as a numeral, picks menu entry n-1 and consumes exactly that line. */
  lemma ProfileAnswerPicksNumbered(names: seq<string>, suffix: string, line: string, n: int, rest: seq<string>)
    requires ParseInt(line) == Some(n) && 1 <= n <= |Choices(names, suffix)|
    ensures ProfileAnswer(names, suffix, [line] + rest) == Answered(Choices(names, suffix)[n - 1], rest)
  {
    assert ([line] + rest)[1..] == rest;
  }

  /** The documented rule accepts a numeral exactly when it is between 1 and the number of entries. */
  lemma ProfileAcceptsNumeral(count: nat, n: int)
    ensures Accepts(Profile(count), ShowInt(n)) <==> 1 <= n <= count
    ensures Accepts(ProfileAsWritten(count), ShowInt(n)) <==> 1 <= n <= count + 1
  {
    ParseShowInt(n);
  }

  /**
    The check as written differs from the documented one only by the
    IndexError, and that arises only on the entry one past the end of the menu.
   */
  lemma ProfileAsWrittenAgrees(names: seq<string>, suffix: string, input: seq<string>)
    ensures ProfileAnswerAsWritten(names, suffix, input).IndexError? ==>
      ProfileAnswerAsWritten(names, suffix, input).index == |Choices(names, suffix)|
    ensures !ProfileAnswerAsWritten(names, suffix, input).IndexError? ==>
      ProfileAnswerAsWritten(names, suffix, input) == ProfileAnswer(names, suffix, input)
  {
  }

  /** With no selectable profile, typing 1 passes the check as written and then indexes an empty list. */
  lemma ProfileIndexErrorEmptyMenu()
    ensures Choices([DefaultSection], "-mfa") == []
    ensures ProfileAnswerAsWritten([DefaultSection], "-mfa", ["1"]) == IndexError(0)
    ensures ProfileAnswer([DefaultSection], "-mfa", ["1"]) == Exhausted
  {
  }

  /** With one profile, entry 2 crashes the check as written; the documented check asks again. */
  lemma ProfileIndexErrorOnePastEnd()
    ensures ProfileAnswerAsWritten([DefaultSection, "work", "work-mfa"], "-mfa", ["2", "1"]) == IndexError(1)
    ensures ProfileAnswer([DefaultSection, "work", "work-mfa"], "-mfa", ["2", "1"]) == Answered("work", [])
  {
    var names := [DefaultSection, "work", "work-mfa"];
    assert names[..2][..1] == [DefaultSection];
    assert names[..2][..1][..0] == [];
    assert names[..2] == [DefaultSection, "work"];
    assert "work-mfa"[4..] == "-mfa";
    assert EndsWith("work-mfa", "-mfa");
    assert "work"[0..] != "-mfa";
    assert !EndsWith("work", "-mfa");
    assert Choices([DefaultSection], "-mfa") == [];
    assert Choices(names[..2], "-mfa") == ["work"];
    assert Choices(names, "-mfa") == ["work"];
    ProfileAcceptsNumeral(1, 1);
    ProfileAcceptsNumeral(1, 2);
    assert ShowInt(1) == "1" && ShowInt(2) == "2";
    assert ["2", "1"][1..] == ["1"];
  }

  // ---------------------------------------------------------------- duration

  function LifetimeOf(line: string): Lifetime {
    if line == "" then Seconds(DefaultDuration) else Typed(line)
  }

  function DurationFrom(input: seq<string>, k: Option<nat>): Answer<Lifetime>
    requires k.Some? ==> k.value < |input|
  {
    match k
    case None => Exhausted
    case Some(i) => Answered(LifetimeOf(input[i]), input[i + 1..])
  }

  /** `duration_selection` as written: accepts 900..129601. */
  function DurationAnswerAsWritten(input: seq<string>): (r: Answer<Lifetime>)
    ensures !r.IndexError?
    ensures r.Answered? ==>
      match r.value
      case Seconds(s) => s == DefaultDuration
      case Typed(t) => t in input && ParseInt(t).Some? && MinDuration <= ParseInt(t).value <= MaxDuration + 1
    ensures r.Exhausted? <==> forall j :: 0 <= j < |input| ==> !Accepts(DurationAsWritten, input[j])
  {
    DurationFrom(input, FirstAccepted(input, DurationAsWritten))
  }

  /** `duration_selection` with the documented bound 900..129600. */
  function DurationAnswer(input: seq<string>): Answer<Lifetime> {
    DurationFrom(input, FirstAccepted(input, Duration))
  }

  method DurationSelection(input: seq<string>) returns (r: Answer<Lifetime>)
    ensures r == DurationAnswer(input)
  {
    var k := ReadAccepted(input, Duration);
    if k.None? {
      return Exhausted;
    }
    var userIn := input[k.value];
    if userIn == "" {
      r := Answered(Seconds(DefaultDuration), input[k.value + 1..]);
    } else {
      r := Answered(Typed(userIn), input[k.value + 1..]);
    }
  }

  /** A blank line yields exactly 86400 seconds. */
  lemma DurationBlankIsDefault(rest: seq<string>)
    ensures DurationAnswer([""] + rest) == Answered(Seconds(86400), rest)
    ensures DurationAnswerAsWritten([""] + rest) == Answered(Seconds(86400), rest)
  {
  }

  /** The lifetime answer is the default for a blank line, or a typed numeral within the documented bounds. */
  lemma DurationAnswerInBounds(input: seq<string>)
    ensures DurationAnswer(input).Answered? ==>
      match DurationAnswer(input).value
      case Seconds(s) => s == DefaultDuration
      case Typed(t) => t in input && ParseInt(t).Some? && MinDuration <= ParseInt(t).value <= MaxDuration
    ensures !DurationAnswer(input).IndexError?
  {
  }

  /** A numeral is accepted by the documented rule exactly between 900 and 129600, by the rule as written up to 129601. */
  lemma DurationAcceptsNumeral(n: int)
    ensures Accepts(Duration, ShowInt(n)) <==> MinDuration <= n <= MaxDuration
    ensures Accepts(DurationAsWritten, ShowInt(n)) <==> MinDuration <= n <= MaxDuration + 1
  {
    ParseShowInt(n);
    if n < 0 {
      assert ShowInt(n)[0] == '-';
    } else {
      assert |Show(n)| >= 1;
    }
  }

  /** The rule as written accepts one line more than the documented rule: a numeral of value 129601. */
  lemma DurationRulesDiffer(line: string)
    ensures Accepts(DurationAsWritten, line) <==> Accepts(Duration, line) || ParseInt(line) == Some(MaxDuration + 1)
  {
  }

  lemma ShowBoundaryNumerals()
    ensures ShowInt(899) == "899" && ShowInt(900) == "900"
    ensures ShowInt(129600) == "129600" && ShowInt(129601) == "129601"
  {
    assert Show(12) == "12" && Show(129) == "129" && Show(1296) == "1296" && Show(12960) == "12960";
    assert Show(90) == "90" && Show(89) == "89";
  }

  /** The boundary cases: 900 and 129600 are accepted, 899 rejected, 129601 accepted only as written. */
  lemma DurationBoundaries()
    ensures Accepts(Duration, "900") && Accepts(Duration, "129600")
    ensures !Accepts(Duration, "899") && !Accepts(DurationAsWritten, "899")
    ensures !Accepts(Duration, "129601") && Accepts(DurationAsWritten, "129601")
  {
    ShowBoundaryNumerals();
    DurationAcceptsNumeral(900);
    DurationAcceptsNumeral(129600);
    DurationAcceptsNumeral(899);
    DurationAcceptsNumeral(129601);
  }

  /** Typing 129601 ends the prompt as written; the documented prompt keeps asking. */
  lemma DurationOffByOne()
    ensures DurationAnswerAsWritten(["129601"]) == Answered(Typed("129601"), [])
    ensures DurationAnswer(["129601"]) == Exhausted
  {
    DurationBoundaries();
    assert ["129601"][1..] == [];
  }

  /**
    The two duration prompts give the same answer unless the one as written
    stops at a line reading 129601 that the documented one rejects.
   */
  lemma DurationAsWrittenAgrees(input: seq<string>)
    ensures DurationAnswerAsWritten(input) != DurationAnswer(input) ==>
      DurationAnswerAsWritten(input).Answered? &&
      DurationAnswerAsWritten(input).value.Typed? &&
      ParseInt(DurationAnswerAsWritten(input).value.text) == Some(MaxDuration + 1)
  {
  }

  // ---------------------------------------------------------------- MFA code

  /** The manual branch of `mfa_entry`: the first line that parses as an integer, unchanged. */
  function MfaAnswer(input: seq<string>): Answer<string> {
    match FirstAccepted(input, MfaCode)
    case None => Exhausted
    case Some(k) => Answered(input[k], input[k + 1..])
  }

  method MfaEntry(input: seq<string>) returns (r: Answer<string>)
    ensures r == MfaAnswer(input)
  {
    var k := ReadAccepted(input, MfaCode);
    if k.None? {
      return Exhausted;
    }
    r := Answered(input[k.value], input[k.value + 1..]);
  }

  /** The code returned is one of the typed lines, it is numeric, and every line before it was not. */
  lemma MfaAnswerIsFirstNumeric(input: seq<string>)
    ensures MfaAnswer(input).Answered? ==>
      exists k :: 0 <= k < |input| && input[k] == MfaAnswer(input).value && input[k + 1..] == MfaAnswer(input).rest &&
        ParseInt(input[k]).Some? && forall j :: 0 <= j < k ==> ParseInt(input[j]).None?
    ensures MfaAnswer(input).Exhausted? <==> forall j :: 0 <= j < |input| ==> ParseInt(input[j]).None?
    ensures !MfaAnswer(input).IndexError?
  {
  }

  /** Any line that parses as an integer is accepted as the code unchanged, whatever its length: no six-digit check. */
  lemma MfaAcceptsAnyNumeral(s: string, rest: seq<string>)
    requires ParseInt(s).Some?
    ensures MfaAnswer([s] + rest) == Answered(s, rest)
  {
    assert ([s] + rest)[1..] == rest;
  }

  /** Codes with a leading zero or a sign are accepted too. */
  lemma MfaAcceptsLeadingZero()
    ensures MfaAnswer(["012345"]) == Answered("012345", [])
    ensures MfaAnswer(["+5"]) == Answered("+5", [])
  {
    assert AllDigits("012345") && "+5"[1..] == "5" && AllDigits("5");
    MfaAcceptsAnyNumeral("012345", []);
    MfaAcceptsAnyNumeral("+5", []);
  }
}

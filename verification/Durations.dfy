/** Durations of the auto-ban rules as text (autoban.rs). */
module Durations {
  import opened Options
  import opened Decimal
  import opened Text

  const U64_MAX := 0xffff_ffff_ffff_ffff

  /** Seconds in the unit a suffix names. */
  function UnitOf(c: char): Option<nat> {
    match c
    case 's' => Some(1)
    case 'm' => Some(60)
    case 'h' => Some(3600)
    case 'd' => Some(86400)
    case _ => None
  }

  /** The product wraps as release arithmetic on 64 bits does. */
  function ParseSecs(text: string): Option<nat> {
    var s := Trim(text);
    if s == "" then None
    else
      var last := s[|s| - 1];
      var num := if UnitOf(last).Some? then s[..|s| - 1] else s;
      var mult := if UnitOf(last).Some? then UnitOf(last).value else 1;
      if UnitOf(last).None? && !IsDigit(last) then None
      else match ParseUnsigned(Trim(num), U64_MAX)
           case Some(n) => Some(n * mult % (U64_MAX + 1))
           case None => None
  }

  function FormatSecs(secs: nat): string {
    if secs > 0 && secs % 86400 == 0 then Print(secs / 86400) + "d"
    else if secs > 0 && secs % 3600 == 0 then Print(secs / 3600) + "h"
    else if secs > 0 && secs % 60 == 0 then Print(secs / 60) + "m"
    else Print(secs) + "s"
  }

  lemma DigitsSolid(s: string)
    requires AllDigits(s) && s != ""
    ensures Solid(s) && Trim(s) == s
  {
    assert !IsSpace(s[0]) && !IsSpace(s[|s| - 1]);
    TrimSolid(s);
  }

  lemma DigitsAndUnitSolid(s: string, unit: char)
    requires AllDigits(s) && s != "" && UnitOf(unit).Some?
    ensures Trim(s + [unit]) == s + [unit]
  {
    assert !IsSpace(s[0]) && !IsSpace(unit);
    TrimSolid(s + [unit]);
  }

  /** A printed number with a unit reads as its seconds exactly when they fit 64 bits. */
  lemma ParseWithUnit(n: nat, unit: char)
    requires n <= U64_MAX && UnitOf(unit).Some?
    ensures ParseSecs(Print(n) + [unit]) == Some(n * UnitOf(unit).value) <==> n * UnitOf(unit).value <= U64_MAX
  {
    hide Trim;
    PrintValue(n);
    DigitsSolid(Print(n));
    DigitsAndUnitSolid(Print(n), unit);
    var s := Print(n) + [unit];
    assert s[..|s| - 1] == Print(n);
    assert ParseUnsigned(Print(n), U64_MAX) == Some(n) by { assert Print(n)[0] != '+'; }
    Wraps(n * UnitOf(unit).value);
  }

  lemma Wraps(x: nat)
    ensures x % (U64_MAX + 1) == x <==> x <= U64_MAX
  {
  }

  /** Every duration is read back from what it prints, without overflow. */
  lemma FormatParse(secs: nat)
    requires secs <= U64_MAX
    ensures ParseSecs(FormatSecs(secs)) == Some(secs)
  {
    hide ParseSecs, Print;
    if secs > 0 && secs % 86400 == 0 {
      ParseWithUnit(secs / 86400, 'd');
    } else if secs > 0 && secs % 3600 == 0 {
      ParseWithUnit(secs / 3600, 'h');
    } else if secs > 0 && secs % 60 == 0 {
      ParseWithUnit(secs / 60, 'm');
    } else {
      ParseWithUnit(secs, 's');
    }
  }

  /** The unit printed divides the duration, and no larger unit does; zero prints in seconds. */
  lemma LargestUnit(secs: nat)
    ensures var unit := UnitOf(FormatSecs(secs)[|FormatSecs(secs)| - 1]);
            && unit.Some? && FormatSecs(secs) != ""
            && (secs == 0 ==> unit.value == 1)
            && (secs > 0 ==> secs % unit.value == 0
                             && forall c :: UnitOf(c).Some? && secs % UnitOf(c).value == 0 ==>
                                UnitOf(c).value <= unit.value)
  {
    hide Print;
    if secs > 0 && secs % 86400 == 0 {
    } else if secs > 0 && secs % 3600 == 0 {
    } else if secs > 0 && secs % 60 == 0 {
    } else {
    }
  }

  /** The units, and a bare number. */
  lemma ParseForms(n: nat)
    requires n * 86400 <= U64_MAX
    ensures ParseSecs(Print(n) + "s") == Some(n) && ParseSecs(Print(n) + "m") == Some(n * 60)
    ensures ParseSecs(Print(n) + "h") == Some(n * 3600) && ParseSecs(Print(n) + "d") == Some(n * 86400)
    ensures ParseSecs(Print(n)) == Some(n)
    ensures U64_MAX == 18446744073709551615
  {
    hide ParseSecs, Print;
    ParseWithUnit(n, 's');
    ParseWithUnit(n, 'm');
    ParseWithUnit(n, 'h');
    ParseWithUnit(n, 'd');
    ParseBare(n);
  }

  lemma ParseBare(n: nat)
    requires n <= U64_MAX
    ensures ParseSecs(Print(n)) == Some(n)
  {
    hide Trim, Print, ParseUnsigned, UnitOf, ParseSecs, Value;
    PrintValue(n);
    DigitsSolid(Print(n));
    ReadsPrinted(n, U64_MAX);
    assert IsDigit(Print(n)[|Print(n)| - 1]);
    ParseUnitless(Print(n), n);
  }

  lemma ParseUnitless(s: string, n: nat)
    requires s != "" && Trim(s) == s && IsDigit(s[|s| - 1]) && n <= U64_MAX && ParseUnsigned(s, U64_MAX) == Some(n)
    ensures ParseSecs(s) == Some(n)
  {
    hide Trim, ParseUnsigned, UnitOf;
    DigitIsNoUnit(s[|s| - 1]);
    Wraps(n);
  }

  lemma DigitIsNoUnit(c: char)
    requires IsDigit(c)
    ensures UnitOf(c) == None
  {
  }

  /** White space around a duration does not count, nor between number and unit; another unit is refused. */
  lemma ParseSpaced(text: string)
    ensures ParseSecs(text) == ParseSecs(Trim(text))
    ensures Trim(text) == "" ==> ParseSecs(text) == None
    ensures var t := Trim(text);
            t != "" && t[|t| - 1] !in "smhd0123456789" ==> ParseSecs(text) == None
  {
    var a, b := TrimParts(text);
    TrimSolid(Trim(text));
  }
}

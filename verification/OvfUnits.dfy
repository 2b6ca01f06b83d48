/** Allocation units of capacities and memory sizes (vmfree/parsers/ovf.py). */
module OvfUnits {
  import opened Substitution
  import opened Text

  datatype Unit = Giga | Mega | Kilo | Other

  /** How `_parse_capacity` reads a unit. */
  function CapacityUnit(units: string): Unit {
    var u := Strip(Lower(units));
    if Occurs("giga", u) || Occurs("gb", u) || Occurs("byte * 2^30", u) then Giga
    else if Occurs("mega", u) || Occurs("mb", u) || Occurs("byte * 2^20", u) then Mega
    else if Occurs("kilo", u) || Occurs("kb", u) || Occurs("byte * 2^10", u) then Kilo
    else Other
  }

  /** How `_parse_memory` reads a unit. */
  function MemoryUnit(units: string): Unit {
    var u := ReplaceAll(Lower(units), " ", "");
    if Occurs("2^30", u) || Occurs("giga", u) || Occurs("gb", u) then Giga
    else if Occurs("2^20", u) || Occurs("mega", u) || Occurs("mb", u) then Mega
    else if Occurs("2^10", u) || Occurs("kilo", u) || Occurs("kb", u) then Kilo
    else Other
  }

  const MIB := 0x10_0000

  /** Bytes; anything unrecognised counts as bytes already. */
  function ScaleCapacity(v: int, unit: Unit): int {
    match unit case Giga => v * 0x4000_0000 case Mega => v * MIB case Kilo => v * 1024 case Other => v
  }

  function ParseCapacity(capacity: string, units: string): int {
    match ParseInt(capacity) case None => 0 case Some(v) => ScaleCapacity(v, CapacityUnit(units))
  }

  /** Megabytes; anything unrecognised counts as megabytes already. The division
      rounds down, also for negative values. */
  function ScaleMemory(v: int, unit: Unit): int {
    match unit
    case Giga => v * 1024
    case Mega => v
    case Kilo => if v / 1024 < 1 then 1 else v / 1024
    case Other => v
  }

  function ParseMemory(v: int, units: string): int { ScaleMemory(v, MemoryUnit(units)) }

  // ---------------------------------------------------------------------
  // Substrings survive the removal of blanks
  // ---------------------------------------------------------------------

  lemma OccursHere(a: string, p: string, b: string)
    ensures Occurs(p, a + p + b)
  {
    assert (a + p + b)[|a|..] == p + b;
    assert (p + b)[..|p|] == p;
    assert OccursAt(p, a + p + b, |a|);
  }

  lemma OccursSplit(p: string, s: string) returns (a: string, b: string)
    requires Occurs(p, s)
    ensures s == a + p + b
  {
    var i: nat :| i <= |s| && OccursAt(p, s, i);
    a, b := s[..i], s[i + |p|..];
    assert s[i..][..|p|] == p;
  }

  lemma OccursInLonger(p: string, a: string, s: string, b: string)
    requires Occurs(p, s)
    ensures Occurs(p, a + s + b)
  {
    var x, y := OccursSplit(p, s);
    assert a + s + b == (a + x) + p + (y + b);
    OccursHere(a + x, p, y + b);
  }

  function NoBlanks(s: string): string { ReplaceAll(s, " ", "") }

  lemma {:induction false} NoBlanksConcat(a: string, b: string)
    ensures NoBlanks(a + b) == NoBlanks(a) + NoBlanks(b)
    decreases |a|
  {
    if a == "" {
      assert a + b == b;
    } else {
      var s := a + b;
      assert s[1..] == a[1..] + b;
      assert " " <= s <==> " " <= a by { assert s[0] == a[0]; assert s[..1] == a[..1]; }
      NoBlanksConcat(a[1..], b);
    }
  }

  lemma {:induction false} NoBlanksPlain(p: string)
    requires forall i | 0 <= i < |p| :: p[i] != ' '
    ensures NoBlanks(p) == p
    decreases |p|
  {
    if p != "" {
      assert !(" " <= p) by { assert p[0] != ' '; }
      NoBlanksPlain(p[1..]);
    }
  }

  lemma OccursWithoutBlanks(p: string, s: string)
    requires Occurs(p, s) && forall i | 0 <= i < |p| :: p[i] != ' '
    ensures Occurs(p, NoBlanks(s))
  {
    var a, b := OccursSplit(p, s);
    NoBlanksConcat(a + p, b);
    NoBlanksConcat(a, p);
    NoBlanksPlain(p);
    OccursHere(NoBlanks(a), p, NoBlanks(b));
  }

  lemma OccursBeforeStrip(p: string, s: string)
    requires Occurs(p, Strip(s))
    ensures Occurs(p, s)
  {
    hide Occurs, TrimLeft, TrimRight, IsSpace;
    var i, j := TrimIsTrimmed(s, IsSpace);
    OccursInLonger(p, s[..i], s[i..j], s[j..]);
    assert s == s[..i] + s[i..j] + s[j..];
  }

  /** A pattern that the capacity parser finds, or its blank-free part, is also
      found by the memory parser. */
  lemma FoundByBoth(p: string, part: string, units: string)
    requires Occurs(p, Strip(Lower(units))) && Occurs(part, p)
    requires forall i | 0 <= i < |part| :: part[i] != ' '
    ensures Occurs(part, NoBlanks(Lower(units)))
  {
    OccursBeforeStrip(p, Lower(units));
    var a, b := OccursSplit(p, Lower(units));
    OccursInLonger(part, a, p, b);
    OccursWithoutBlanks(part, Lower(units));
  }

  lemma OccursInItself(p: string)
    ensures Occurs(p, p)
  {
    assert "" + p + "" == p;
    OccursHere("", p, "");
  }

  lemma SpacedForms()
    ensures Occurs("2^30", "byte * 2^30") && Occurs("2^20", "byte * 2^20") && Occurs("2^10", "byte * 2^10")
  {
    assert "byte * 2^30" == "byte * " + "2^30" + "";
    OccursHere("byte * ", "2^30", "");
    assert "byte * 2^20" == "byte * " + "2^20" + "";
    OccursHere("byte * ", "2^20", "");
    assert "byte * 2^10" == "byte * " + "2^10" + "";
    OccursHere("byte * ", "2^10", "");
  }

  lemma GigaFound(units: string)
    ensures CapacityUnit(units).Giga? ==> MemoryUnit(units).Giga?
  {
    hide Occurs, Strip, Lower, ReplaceAll;
    var u := Strip(Lower(units));
    OccursInItself("giga");
    OccursInItself("gb");
    SpacedForms();
    if Occurs("giga", u) { FoundByBoth("giga", "giga", units); }
    else if Occurs("gb", u) { FoundByBoth("gb", "gb", units); }
    else if Occurs("byte * 2^30", u) { FoundByBoth("byte * 2^30", "2^30", units); }
  }

  lemma MegaFound(units: string)
    ensures CapacityUnit(units).Mega? ==> MemoryUnit(units).Giga? || MemoryUnit(units).Mega?
  {
    hide Occurs, Strip, Lower, ReplaceAll;
    var u := Strip(Lower(units));
    OccursInItself("mega");
    OccursInItself("mb");
    SpacedForms();
    if Occurs("mega", u) { FoundByBoth("mega", "mega", units); }
    else if Occurs("mb", u) { FoundByBoth("mb", "mb", units); }
    else if Occurs("byte * 2^20", u) { FoundByBoth("byte * 2^20", "2^20", units); }
  }

  lemma KiloFound(units: string)
    ensures CapacityUnit(units).Kilo? ==> !MemoryUnit(units).Other?
  {
    hide Occurs, Strip, Lower, ReplaceAll;
    var u := Strip(Lower(units));
    OccursInItself("kilo");
    OccursInItself("kb");
    SpacedForms();
    if Occurs("kilo", u) { FoundByBoth("kilo", "kilo", units); }
    else if Occurs("kb", u) { FoundByBoth("kb", "kb", units); }
    else if Occurs("byte * 2^10", u) { FoundByBoth("byte * 2^10", "2^10", units); }
  }

  // ---------------------------------------------------------------------
  // Agreement
  // ---------------------------------------------------------------------

  function Rank(u: Unit): nat { match u case Giga => 3 case Mega => 2 case Kilo => 1 case Other => 0 }

  /** Whatever unit the capacity parser recognises, the memory parser recognises
      that unit or a larger one: a memory size is never read as smaller. */
  lemma MemoryRecognisesMore(units: string)
    ensures Rank(CapacityUnit(units)) <= Rank(MemoryUnit(units))
  {
    GigaFound(units);
    MegaFound(units);
    KiloFound(units);
  }

  // ---------------------------------------------------------------------
  // In terms of the text
  // ---------------------------------------------------------------------

  /** What a lower-case text says to the capacity parser. */
  predicate SaysGiga(t: string) { Occurs("giga", t) || Occurs("gb", t) || Occurs("byte * 2^30", t) }
  predicate SaysMega(t: string) { Occurs("mega", t) || Occurs("mb", t) || Occurs("byte * 2^20", t) }
  predicate SaysKilo(t: string) { Occurs("kilo", t) || Occurs("kb", t) || Occurs("byte * 2^10", t) }

  /** What a lower-case text without blanks says to the memory parser. */
  predicate HintsGiga(b: string) { Occurs("2^30", b) || Occurs("giga", b) || Occurs("gb", b) }
  predicate HintsMega(b: string) { Occurs("2^20", b) || Occurs("mega", b) || Occurs("mb", b) }
  predicate HintsKilo(b: string) { Occurs("2^10", b) || Occurs("kilo", b) || Occurs("kb", b) }

  /** Stripping takes no pattern away. */
  lemma OccursAfterStrip(p: string, s: string)
    requires p != "" && !IsSpace(p[0]) && !IsSpace(p[|p| - 1])
    ensures Occurs(p, Strip(s)) <==> Occurs(p, s)
  {
    hide TrimLeft, TrimRight, IsSpace;
    if Occurs(p, s) {
      var q: nat :| q <= |s| && OccursAt(p, s, q);
      var i, j := TrimIsTrimmed(s, IsSpace);
      assert s[q] == p[0] && s[q + |p| - 1] == p[|p| - 1];
      assert q >= i && q + |p| <= j;
      assert s[i..j][q - i..][..|p|] == s[q..][..|p|];
      assert OccursAt(p, Strip(s), q - i);
    }
    if Occurs(p, Strip(s)) { OccursBeforeStrip(p, s); }
  }

  lemma CapacityByText(units: string)
    ensures var t := Lower(units);
      CapacityUnit(units) ==
        if SaysGiga(t) then Giga else if SaysMega(t) then Mega else if SaysKilo(t) then Kilo else Other
  {
    assert !IsSpace('g') && !IsSpace('a') && !IsSpace('b') && !IsSpace('0');
    assert !IsSpace('m') && !IsSpace('k') && !IsSpace('o');
    hide Occurs, Strip, Lower, IsSpace;
    var t := Lower(units);
    OccursAfterStrip("giga", t);
    OccursAfterStrip("gb", t);
    OccursAfterStrip("byte * 2^30", t);
    OccursAfterStrip("mega", t);
    OccursAfterStrip("mb", t);
    OccursAfterStrip("byte * 2^20", t);
    OccursAfterStrip("kilo", t);
    OccursAfterStrip("kb", t);
    OccursAfterStrip("byte * 2^10", t);
  }

  lemma MemoryByText(units: string)
    ensures var b := NoBlanks(Lower(units));
      MemoryUnit(units) ==
        if HintsGiga(b) then Giga else if HintsMega(b) then Mega else if HintsKilo(b) then Kilo else Other
  {
    hide Occurs, Lower, ReplaceAll;
  }

  ghost predicate SizesAgree(units: string) {
    forall v: int :: ScaleCapacity(v, CapacityUnit(units)) == ParseMemory(v, units) * MIB
  }

  /** The memory size is the capacity rounded down to whole megabytes. */
  ghost predicate SizesRound(units: string) {
    forall v: int | v >= 1024 :: 0 <= ScaleCapacity(v, CapacityUnit(units)) - ParseMemory(v, units) * MIB < MIB
  }

  /** The two parsers give the same size for every value if and only if the text
      says giga, or says mega without hinting at giga once its blanks are gone. */
  lemma SizesAgreeIff(units: string)
    ensures var t, b := Lower(units), NoBlanks(Lower(units));
      SizesAgree(units) <==> SaysGiga(t) || (SaysMega(t) && !HintsGiga(b))
  {
    var c, m := CapacityUnit(units), MemoryUnit(units);
    CapacityByText(units);
    MemoryByText(units);
    MemoryRecognisesMore(units);
    hide Occurs, Lower, NoBlanks, CapacityUnit, MemoryUnit;
    hide SaysGiga, SaysMega, SaysKilo, HintsGiga, HintsMega, HintsKilo;
    if !(c == m && (c.Giga? || c.Mega?)) {
      assert ScaleCapacity(1, c) != ScaleMemory(1, m) * MIB;
      assert ParseMemory(1, units) == ScaleMemory(1, m);
    }
  }

  /** The memory size is the capacity rounded down, for every value of at least
      1024, if and only if the sizes agree or the text says kilo and hints at
      nothing larger. */
  lemma SizesRoundIff(units: string)
    ensures var t, b := Lower(units), NoBlanks(Lower(units));
      SizesRound(units) <==>
        SizesAgree(units)
        || (SaysKilo(t) && !SaysGiga(t) && !SaysMega(t) && !HintsGiga(b) && !HintsMega(b))
  {
    var c, m := CapacityUnit(units), MemoryUnit(units);
    CapacityByText(units);
    MemoryByText(units);
    MemoryRecognisesMore(units);
    hide Occurs, Lower, NoBlanks, CapacityUnit, MemoryUnit;
    hide SaysGiga, SaysMega, SaysKilo, HintsGiga, HintsMega, HintsKilo;
    if c == m && (c.Giga? || c.Mega?) {
      assert SizesAgree(units);
    } else if !(c.Kilo? && m.Kilo?) {
      assert ParseMemory(1024, units) == ScaleMemory(1024, m);
      assert ScaleCapacity(1024, c) < ScaleMemory(1024, m) * MIB;
    }
  }

  // ---------------------------------------------------------------------
  // The forms in use
  // ---------------------------------------------------------------------

  /** The word forms and the spaced form of a unit, in lower case. */
  function Forms(unit: Unit): seq<string> {
    match unit
    case Giga => ["giga", "gigabyte", "gigabytes", "gb", "byte * 2^30"]
    case Mega => ["mega", "megabyte", "megabytes", "mb", "byte * 2^20"]
    case Kilo => ["kilo", "kilobyte", "kilobytes", "kb", "byte * 2^10"]
    case Other => []
  }

  lemma LetterMissing(c: char, p: string, s: string)
    requires c in p && c !in s
    ensures !Occurs(p, s)
  {
    forall i: nat | i <= |s| ensures !OccursAt(p, s, i) {
      var j :| 0 <= j < |p| && p[j] == c;
      assert i + j < |s| ==> s[i..][j] == s[i + j];
    }
  }

  lemma {:induction false} NoNewLetters(c: char, s: string)
    requires c !in s
    ensures c !in NoBlanks(s)
    decreases |s|
  {
    if s != "" {
      assert " " <= s ==> s[|" "|..] == s[1..];
      NoNewLetters(c, s[1..]);
    }
  }

  lemma OccursShows(p: string, s: string) returns (i: nat)
    requires Occurs(p, s) && |p| >= 2
    ensures i + |p| <= |s| && s[i] == p[0] && s[i + 1] == p[1] && (|p| > 2 ==> s[i + 2] == p[2])
  {
    i :| i <= |s| && OccursAt(p, s, i);
    assert s[i] == p[0] && s[i + 1] == p[1];
    if |p| > 2 { assert s[i + 2] == p[2]; }
  }

  /** A pair of letters that do not follow one another. */
  lemma PairMissing(p: string, s: string)
    requires |p| >= 2 && forall i | 0 <= i < |s| - 1 :: !(s[i] == p[0] && s[i + 1] == p[1])
    ensures !Occurs(p, s)
  {
    hide Occurs;
    if Occurs(p, s) { var i := OccursShows(p, s); }
  }

  lemma FormFound(front: string, p: string, back: string)
    ensures Occurs(p, front + p + back)
  {
    OccursHere(front, p, back);
  }

  lemma GigaForms(t: string)
    requires t in Forms(Giga)
    ensures SaysGiga(t)
  {
    hide Occurs;
    OccursInItself(t);
    assert "gigabyte" == "" + "giga" + "byte" && "gigabytes" == "" + "giga" + "bytes";
    FormFound("", "giga", "byte");
    FormFound("", "giga", "bytes");
  }

  lemma MegaForms(t: string)
    requires t in Forms(Mega)
    ensures SaysMega(t)
  {
    hide Occurs;
    OccursInItself(t);
    assert "megabyte" == "" + "mega" + "byte" && "megabytes" == "" + "mega" + "bytes";
    FormFound("", "mega", "byte");
    FormFound("", "mega", "bytes");
  }

  lemma MegaLetters(t: string)
    requires t in Forms(Mega)
    ensures 'i' !in t && '3' !in t
  {
    if t == "mega" {
    } else if t == "megabyte" {
    } else if t == "megabytes" {
    } else if t == "mb" {
    } else {
      assert t == "byte * 2^20";
    }
  }

  lemma KiloForms(t: string)
    requires t in Forms(Kilo)
    ensures SaysKilo(t)
  {
    hide Occurs;
    OccursInItself(t);
    assert "kilobyte" == "" + "kilo" + "byte" && "kilobytes" == "" + "kilo" + "bytes";
    FormFound("", "kilo", "byte");
    FormFound("", "kilo", "bytes");
  }

  lemma KiloLetters(t: string)
    requires t in Forms(Kilo)
    ensures 'g' !in t && 'm' !in t && '3' !in t
  {
    if t == "kilo" {
    } else if t == "kilobyte" {
    } else if t == "kilobytes" {
    } else if t == "kb" {
    } else {
      assert t == "byte * 2^10";
    }
  }

  const SPACED_KILO := "byte * 2^10"

  lemma SpacedKiloPlain()
    ensures NoBlanks(SPACED_KILO) == "byte*2^10"
  {
    hide ReplaceAll;
    SpacedKiloPieces();
    NoBlanksConcat("byte" + " " + "*" + " ", "2^10");
    NoBlanksConcat("byte" + " " + "*", " ");
    NoBlanksConcat("byte" + " ", "*");
    NoBlanksConcat("byte", " ");
    BlankGone();
    NoBlanksPlain("byte");
    NoBlanksPlain("*");
    NoBlanksPlain("2^10");
  }

  lemma SpacedKiloPieces()
    ensures SPACED_KILO == "byte" + " " + "*" + " " + "2^10"
    ensures "byte" + "" + "*" + "" + "2^10" == "byte*2^10"
  {
  }

  lemma BlankGone()
    ensures NoBlanks(" ") == ""
  {
    assert " " <= " " && " "[1..] == "";
  }

  /** In a mega form no giga is found, with or without blanks. */
  lemma MegaOnly(t: string)
    requires t in Forms(Mega)
    ensures !SaysGiga(t) && !HintsGiga(NoBlanks(t))
  {
    MegaLetters(t);
    hide Forms;
    NoNewLetters('i', t);
    NoNewLetters('3', t);
    NoGb(t);
    hide Occurs, ReplaceAll;
    LetterMissing('i', "giga", t);
    LetterMissing('3', "byte * 2^30", t);
    LetterMissing('3', "2^30", NoBlanks(t));
    LetterMissing('i', "giga", NoBlanks(t));
  }

  lemma NoGb(t: string)
    requires t in Forms(Mega)
    ensures !Occurs("gb", t) && !Occurs("gb", NoBlanks(t))
  {
    if t == "byte * 2^20" {
      assert 'g' !in t;
      NoNewLetters('g', t);
      LetterMissing('g', "gb", t);
      LetterMissing('g', "gb", NoBlanks(t));
    } else {
      PairMissing("gb", t);
      NoBlanksPlain(t);
    }
  }

  /** In a kilo form neither mega nor giga is found, with or without blanks. */
  lemma KiloOnly(t: string)
    requires t in Forms(Kilo)
    ensures !SaysGiga(t) && !SaysMega(t) && !HintsGiga(NoBlanks(t)) && !HintsMega(NoBlanks(t))
  {
    KiloLetters(t);
    hide Forms;
    NoTwenty(t);
    NoNewLetters('g', t);
    NoNewLetters('m', t);
    NoNewLetters('3', t);
    hide Occurs, ReplaceAll;
    LetterMissing('g', "giga", t);
    LetterMissing('g', "gb", t);
    LetterMissing('3', "byte * 2^30", t);
    LetterMissing('m', "mega", t);
    LetterMissing('m', "mb", t);
    LetterMissing('3', "2^30", NoBlanks(t));
    LetterMissing('g', "giga", NoBlanks(t));
    LetterMissing('g', "gb", NoBlanks(t));
    LetterMissing('m', "mega", NoBlanks(t));
    LetterMissing('m', "mb", NoBlanks(t));
  }

  lemma NoTwenty(t: string)
    requires t in Forms(Kilo)
    ensures !Occurs("byte * 2^20", t) && !Occurs("2^20", NoBlanks(t))
  {
    NoHintOfTwenty(t);
    hide Occurs, ReplaceAll, Forms;
    SpacedNeedsHint(t);
  }

  lemma SpacedNeedsHint(t: string)
    ensures Occurs("byte * 2^20", t) ==> Occurs("2^20", NoBlanks(t))
  {
    SpacedForms();
    hide Occurs, ReplaceAll;
    if Occurs("byte * 2^20", t) {
      var a, b := OccursSplit("byte * 2^20", t);
      OccursInLonger("2^20", a, "byte * 2^20", b);
      OccursWithoutBlanks("2^20", t);
    }
  }

  lemma NoHintOfTwenty(t: string)
    requires t in Forms(Kilo)
    ensures !Occurs("2^20", NoBlanks(t))
  {
    hide Occurs, ReplaceAll;
    if t == SPACED_KILO {
      SpacedKiloPlain();
      TwentyMissing();
    } else {
      assert '^' !in t;
      NoNewLetters('^', t);
      LetterMissing('^', "2^20", NoBlanks(t));
    }
  }

  lemma TwentyMissing()
    ensures !Occurs("2^20", "byte*2^10")
  {
    hide Occurs;
    if Occurs("2^20", "byte*2^10") { var i := OccursShows("2^20", "byte*2^10"); }
  }

  /** Every word form and the spaced form, in any case of its letters, is read as
      its unit by both parsers; so the sizes agree, exactly for mega and giga and
      rounded down to whole megabytes, but never below one, for kilo. */
  lemma FormsAgree(units: string, unit: Unit)
    requires Lower(units) in Forms(unit)
    ensures CapacityUnit(units) == MemoryUnit(units) == unit
    ensures unit.Giga? || unit.Mega? ==> SizesAgree(units)
    ensures unit.Kilo? ==> SizesRound(units) && forall v: int | v < 1024 :: ParseMemory(v, units) == 1
  {
    var t := Lower(units);
    CapacityByText(units);
    MemoryByText(units);
    MemoryRecognisesMore(units);
    if unit.Giga? { GigaForms(t); }
    if unit.Mega? { MegaForms(t); MegaOnly(t); }
    if unit.Kilo? { KiloForms(t); KiloOnly(t); }
    SizesAgreeIff(units);
    SizesRoundIff(units);
    hide Occurs, Lower, NoBlanks, CapacityUnit, MemoryUnit;
    hide SaysGiga, SaysMega, SaysKilo, HintsGiga, HintsMega, HintsKilo;
  }

  function Unspaced(unit: Unit): string {
    match unit case Giga => "byte*2^30" case Mega => "byte*2^20" case Kilo => "byte*2^10" case Other => "byte"
  }

  lemma UnspacedSays(t: string)
    requires ' ' !in t && 'g' !in t && 'm' !in t && 'k' !in t
    ensures !SaysGiga(t) && !SaysMega(t) && !SaysKilo(t)
  {
    hide Occurs;
    LetterMissing('g', "giga", t);
    LetterMissing('g', "gb", t);
    LetterMissing(' ', "byte * 2^30", t);
    LetterMissing('m', "mega", t);
    LetterMissing('m', "mb", t);
    LetterMissing(' ', "byte * 2^20", t);
    LetterMissing('k', "kilo", t);
    LetterMissing('k', "kb", t);
    LetterMissing(' ', "byte * 2^10", t);
  }

  lemma UnspacedHints(t: string)
    requires t == "byte*2^30" || t == "byte*2^20" || t == "byte*2^10"
    ensures HintsGiga(t) <==> t == "byte*2^30"
    ensures t != "byte*2^30" ==> (HintsMega(t) <==> t == "byte*2^20")
    ensures t == "byte*2^10" ==> HintsKilo(t)
  {
    assert t == "byte*" + t[5..] + "" && 'g' !in t && 'm' !in t;
    assert t != "byte*2^30" ==> '3' !in t;
    TwentyMissing();
    OccursHere("byte*", t[5..], "");
    hide Occurs;
    LetterMissing('g', "giga", t);
    LetterMissing('g', "gb", t);
    LetterMissing('m', "mega", t);
    LetterMissing('m', "mb", t);
    if t != "byte*2^30" { LetterMissing('3', "2^30", t); }
  }

  /** The unspaced forms, in any case, are read by the memory parser only: as a
      capacity they count as bytes, too small by the factor they name. */
  lemma UnspacedForms(units: string, unit: Unit)
    requires !unit.Other? && Lower(units) == Unspaced(unit)
    ensures CapacityUnit(units).Other? && MemoryUnit(units) == unit && !SizesAgree(units) && !SizesRound(units)
  {
    var t := Lower(units);
    assert ' ' !in t && 'g' !in t && 'm' !in t && 'k' !in t;
    UnspacedSays(t);
    UnspacedHints(t);
    NoBlanksPlain(t);
    CapacityByText(units);
    MemoryByText(units);
    SizesAgreeIff(units);
    SizesRoundIff(units);
    hide Occurs, Lower, NoBlanks, CapacityUnit, MemoryUnit;
    hide SaysGiga, SaysMega, SaysKilo, HintsGiga, HintsMega, HintsKilo;
  }

  // ---------------------------------------------------------------------
  // Sizes in numbers
  // ---------------------------------------------------------------------

  /** A capacity in bytes, by what its unit says. */
  lemma CapacityIs(capacity: string, units: string)
    ensures var t, bytes := Lower(units), ParseCapacity(capacity, units);
      match ParseInt(capacity)
      case None => bytes == 0
      case Some(v) =>
        bytes == v * (if SaysGiga(t) then 1073741824 else if SaysMega(t) then 1048576
                      else if SaysKilo(t) then 1024 else 1)
  {
    CapacityByText(units);
    hide Lower, SaysGiga, SaysMega, SaysKilo, ParseInt, CapacityUnit;
  }

  lemma InBytes(capacity: string)
    ensures ParseCapacity(capacity, "byte") == match ParseInt(capacity) case None => 0 case Some(v) => v
  {
    CapacityIs(capacity, "byte");
    assert Lower("byte") == "byte";
    hide Lower, ParseInt, ParseCapacity, Occurs;
    PairMissing("giga", "byte");
    PairMissing("gb", "byte");
    LetterMissing('2', "byte * 2^30", "byte");
    PairMissing("mega", "byte");
    PairMissing("mb", "byte");
    LetterMissing('2', "byte * 2^20", "byte");
    PairMissing("kilo", "byte");
    PairMissing("kb", "byte");
    LetterMissing('2', "byte * 2^10", "byte");
  }

  /** A memory size in megabytes, by what its unit hints at; kilobytes are rounded
      down, but never below one megabyte. */
  lemma MemoryIs(v: int, units: string)
    ensures var b, size := NoBlanks(Lower(units)), ParseMemory(v, units);
      if HintsGiga(b) then size == v * 1024
      else if HintsMega(b) || !HintsKilo(b) then size == v
      else if v < 2048 then size == 1 else size * 1024 <= v < size * 1024 + 1024
  {
    MemoryByText(units);
    hide Lower, HintsGiga, HintsMega, HintsKilo, MemoryUnit, NoBlanks;
  }
}

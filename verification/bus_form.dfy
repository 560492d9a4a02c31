/** The bus form's input helpers: the `ДД.ММ.ГГГГ` date check, its
    conversion to the ISO timestamp the backend decodes, and the validation
    run before a bus is created or updated. A `char` is a Unicode scalar
    value, whereas JavaScript strings are sequences of UTF-16 code units;
    the two agree on the characters of the Basic Multilingual Plane, which
    are the only ones these helpers inspect (digits, '.', '-', whitespace). */
module BusForm {
  import opened Outcomes
  import opened Text

  /** `String.prototype.split` with a one-character separator: the maximal
      runs between separators, in order, empty runs included. */
  function Split(s: string, sep: char): (parts: seq<string>)
    ensures |parts| >= 1
    ensures forall i :: 0 <= i < |parts| ==> sep !in parts[i]
    decreases |s|
  {
    if |s| == 0 then [""]
    else
      var rest := Split(s[1..], sep);
      if s[0] == sep then [""] + rest
      else [[s[0]] + rest[0]] + rest[1..]
  }

  /** `Array.prototype.join`, the inverse of `Split`. */
  function Join(parts: seq<string>, sep: char): string
    requires |parts| >= 1
    decreases |parts|
  {
    if |parts| == 1 then parts[0] else parts[0] + [sep] + Join(parts[1..], sep)
  }

  /** Joining the pieces of a split gives back the string. */
  lemma {:induction false} JoinSplit(s: string, sep: char)
    ensures Join(Split(s, sep), sep) == s
    decreases |s|
  {
    if |s| > 0 {
      var rest := Split(s[1..], sep);
      JoinSplit(s[1..], sep);
      if s[0] == sep {
        assert Split(s, sep) == [""] + rest;
        assert s == [sep] + s[1..];
      } else {
        var parts := Split(s, sep);
        assert parts == [[s[0]] + rest[0]] + rest[1..];
        if |rest| == 1 {
          assert parts == [[s[0]] + rest[0]];
        } else {
          assert parts[1..] == rest[1..];
          assert Join(rest, sep) == rest[0] + [sep] + Join(rest[1..], sep);
        }
      }
    }
  }

  /** Splitting the join of separator-free pieces gives back the pieces. */
  lemma {:induction false} SplitJoin(parts: seq<string>, sep: char)
    requires |parts| >= 1
    requires forall i :: 0 <= i < |parts| ==> sep !in parts[i]
    ensures Split(Join(parts, sep), sep) == parts
    decreases |parts|, |parts[0]|
  {
    var s := Join(parts, sep);
    if |parts[0]| == 0 {
      if |parts| > 1 {
        SplitJoin(parts[1..], sep);
        assert s == [sep] + Join(parts[1..], sep);
        assert s[1..] == Join(parts[1..], sep);
        assert parts == [""] + parts[1..];
      }
    } else {
      var tail := [parts[0][1..]] + parts[1..];
      assert forall i :: 0 <= i < |tail| ==> sep !in tail[i] by {
        assert tail[0] == parts[0][1..];
        assert forall i :: 1 <= i < |tail| ==> tail[i] == parts[i];
      }
      SplitJoin(tail, sep);
      assert tail[1..] == parts[1..];
      assert s == [parts[0][0]] + Join(tail, sep);
      assert s[1..] == Join(tail, sep);
      assert parts[0][0] != sep by { assert parts[0][0] in parts[0]; }
      assert [parts[0][0]] + parts[0][1..] == parts[0];
    }
  }

  /** `String.prototype.padStart` with a one-character filler. */
  function PadStart(s: string, width: nat, fill: char): (p: string)
    ensures |s| >= width ==> p == s
    ensures |s| < width ==> |p| == width && p[width - |s|..] == s
    ensures forall i :: 0 <= i < |p| - |s| ==> p[i] == fill
  {
    if |s| >= width then s else seq(width - |s|, _ => fill) + s
  }

  /** The regular expression's `\d`, which without the `u` flag is ASCII only. */
  predicate IsDigit(c: char)
  {
    '0' <= c <= '9'
  }

  predicate AllDigits(s: string)
  {
    forall i :: 0 <= i < |s| ==> IsDigit(s[i])
  }

  /** `Number(s)` on a string of decimal digits: its value, leading zeros
      ignored. */
  function DecimalValue(s: string): (n: nat)
    requires AllDigits(s)
    decreases |s|
  {
    if |s| == 0 then 0
    else DecimalValue(s[..|s| - 1]) * 10 + (s[|s| - 1] as int - '0' as int)
  }

  /** The regular expression `^\d{2}\.\d{2}\.\d{4}$`, anchored at both ends. */
  predicate MatchesDatePattern(s: string)
  {
    && |s| == 10
    && s[2] == '.' && s[5] == '.'
    && forall i :: 0 <= i < 10 && i != 2 && i != 5 ==> IsDigit(s[i])
  }

  /** Its day, month and year are digit strings. */
  lemma DatePartsAreDigits(s: string)
    requires MatchesDatePattern(s)
    ensures AllDigits(s[..2]) && AllDigits(s[3..5]) && AllDigits(s[6..])
  {
  }

  /** The value of one digit. */
  function DigitValue(c: char): int
  {
    c as int - '0' as int
  }

  /** `Number` of two digits. */
  lemma TwoDigitValue(s: string)
    requires |s| == 2 && AllDigits(s)
    ensures DecimalValue(s) == DigitValue(s[0]) * 10 + DigitValue(s[1])
  {
    assert s[..1][..0] == [];
    assert DecimalValue(s[..1]) == DigitValue(s[0]);
  }

  /** `Number` of four digits. */
  lemma FourDigitValue(s: string)
    requires |s| == 4 && AllDigits(s)
    ensures DecimalValue(s) == DigitValue(s[0]) * 1000 + DigitValue(s[1]) * 100 + DigitValue(s[2]) * 10 + DigitValue(s[3])
  {
    assert s[..3][..2] == s[..2];
    TwoDigitValue(s[..2]);
  }

  /** Day, month and year of a string of the pattern, digit by digit. */
  lemma DateValues(s: string)
    requires MatchesDatePattern(s)
    ensures AllDigits(s[..2]) && AllDigits(s[3..5]) && AllDigits(s[6..])
    ensures DecimalValue(s[..2]) == Day(s)
    ensures DecimalValue(s[3..5]) == Month(s)
    ensures DecimalValue(s[6..]) == Year(s)
  {
    DatePartsAreDigits(s);
    TwoDigitValue(s[..2]);
    TwoDigitValue(s[3..5]);
    FourDigitValue(s[6..]);
  }

  /** Day, month and year of a string of the pattern, read digit by digit
      from their positions. */
  function Day(s: string): int
    requires MatchesDatePattern(s)
  {
    DigitValue(s[0]) * 10 + DigitValue(s[1])
  }

  function Month(s: string): int
    requires MatchesDatePattern(s)
  {
    DigitValue(s[3]) * 10 + DigitValue(s[4])
  }

  function Year(s: string): int
    requires MatchesDatePattern(s)
  {
    DigitValue(s[6]) * 1000 + DigitValue(s[7]) * 100 + DigitValue(s[8]) * 10 + DigitValue(s[9])
  }

  /** A string of the pattern splits at its two dots into day, month, year. */
  lemma SplitDate(s: string)
    requires MatchesDatePattern(s)
    ensures Split(s, '.') == [s[..2], s[3..5], s[6..]]
  {
    var parts := [s[..2], s[3..5], s[6..]];
    DatePartsAreDigits(s);
    forall i | 0 <= i < |parts| ensures '.' !in parts[i] {
      assert AllDigits(parts[i]);
    }
    var tail := parts[1..];
    assert tail == [s[3..5], s[6..]] && tail[1..] == [s[6..]];
    assert Join(tail, '.') == s[3..5] + "." + s[6..];
    assert Join(parts, '.') == s[..2] + "." + Join(tail, '.');
    assert s == s[..2] + "." + s[3..5] + "." + s[6..];
    assert Join(parts, '.') == s;
    SplitJoin(parts, '.');
  }

  /** `isValidDateFormat`: the pattern, then day 1..31, month 1..12 and year
      1900..9999, with no calendar check. */
  function IsValidDateFormat(date: string): (ok: bool)
    ensures ok <==>
      && MatchesDatePattern(date)
      && 1 <= Day(date) <= 31
      && 1 <= Month(date) <= 12
      && 1900 <= Year(date)
  {
    if !MatchesDatePattern(date) then false
    else
      SplitDate(date);
      DateValues(date);
      var parts := Split(date, '.');
      var day, month, year := DecimalValue(parts[0]), DecimalValue(parts[1]), DecimalValue(parts[2]);
      if day < 1 || day > 31 then false
      else if month < 1 || month > 12 then false
      else !(year < 1900 || year > 9999)
  }

  /** The year's upper bound never rejects anything: four digits stay
      below 10000. */
  lemma YearBoundNeverBinds(date: string)
    requires MatchesDatePattern(date)
    ensures Year(date) <= 9999
  {
  }

  /** `convertDateToISO`: null for an invalid date, otherwise the input's
      year, month and day digits rearranged into a midnight UTC timestamp. */
  function ConvertDateToIso(date: string): (r: Option<string>)
    ensures r.None? <==> !IsValidDateFormat(date)
    ensures r.Some? ==> |r.value| == 20
    ensures r.Some? ==> r.value == date[6..] + "-" + date[3..5] + "-" + date[..2] + "T00:00:00Z"
  {
    if !IsValidDateFormat(date) then None
    else
      SplitDate(date);
      var parts := Split(date, '.');
      var day, month, year := parts[0], parts[1], parts[2];
      Some(year + "-" + PadStart(month, 2, '0') + "-" + PadStart(day, 2, '0') + "T00:00:00Z")
  }

  /** The form's date read back from a timestamp of the shape
      `ConvertDateToIso` writes. A reference inverse, stated on characters
      only: the form's own reverse conversion goes through the JavaScript
      `Date` object and is not part of this model. */
  function DateOfIso(iso: string): (r: Option<string>)
    ensures r.Some? ==> |r.value| == 10
  {
    if |iso| == 20 && iso[4] == '-' && iso[7] == '-' && iso[10..] == "T00:00:00Z"
    then Some(iso[8..10] + "." + iso[5..7] + "." + iso[..4])
    else None
  }

  /** The conversion loses nothing: the date comes back from its timestamp,
      so two distinct valid dates never share one. */
  lemma IsoRoundTrip(date: string)
    requires IsValidDateFormat(date)
    ensures ConvertDateToIso(date).Some?
    ensures DateOfIso(ConvertDateToIso(date).value) == Some(date)
  {
    assert |date| == 10 && date[2] == '.' && date[5] == '.';
    RearrangedDateReadsBack(date);
  }

  /** The character rearrangement behind `IsoRoundTrip`: year, month and day
      written in ISO order read back as the dotted date. */
  lemma RearrangedDateReadsBack(date: string)
    requires |date| == 10 && date[2] == '.' && date[5] == '.'
    ensures DateOfIso(date[6..] + "-" + date[3..5] + "-" + date[..2] + "T00:00:00Z") == Some(date)
  {
    var iso := date[6..] + "-" + date[3..5] + "-" + date[..2] + "T00:00:00Z";
    assert iso[8..10] == date[..2];
    assert iso[5..7] == date[3..5];
    assert iso[..4] == date[6..];
    assert date == date[..2] + "." + date[3..5] + "." + date[6..];
  }

  /** And the other way round: a timestamp whose date part reads back as a
      valid date is exactly what the conversion writes for it. */
  lemma DateOfIsoRoundTrip(iso: string)
    requires DateOfIso(iso).Some? && IsValidDateFormat(DateOfIso(iso).value)
    ensures ConvertDateToIso(DateOfIso(iso).value) == Some(iso)
  {
    var date := DateOfIso(iso).value;
    assert date[6..] == iso[..4];
    assert date[3..5] == iso[5..7];
    assert date[..2] == iso[8..10];
    assert iso == iso[..4] + "-" + iso[5..7] + "-" + iso[8..10] + "T00:00:00Z";
  }

  /** The checks are ranges, not a calendar: the 31st of February passes
      and converts to its own timestamp. */
  lemma February31Accepted()
    ensures IsValidDateFormat("31.02.2020")
    ensures ConvertDateToIso("31.02.2020") == Some("2020-02-31T00:00:00Z")
  {
    var s := "31.02.2020";
    assert MatchesDatePattern(s);
    DateValues(s);
    assert s[6..] == "2020" && s[3..5] == "02" && s[..2] == "31";
    assert "2020" + "-" + "02" + "-" + "31" + "T00:00:00Z" == "2020-02-31T00:00:00Z";
  }

  /** A one-digit day, a zero day and the 13th month fail. */
  lemma OutOfRangeRejected()
    ensures !IsValidDateFormat("1.02.2020")
    ensures !IsValidDateFormat("00.01.2020")
    ensures !IsValidDateFormat("01.13.2020")
  {
  }

  /** A year before 1900 fails, and converts to null. */
  lemma EarlyYearRejected()
    ensures !IsValidDateFormat("01.01.1899")
    ensures ConvertDateToIso("01.01.1899") == None
  {
  }

  /** The five inputs of the form, in the order they are checked. */
  datatype Field = Brand | BusModel | RegisterNumber | AssemblyDate | LastRepairDate

  const FieldOrder: seq<Field> := [Brand, BusModel, RegisterNumber, AssemblyDate, LastRepairDate]

  /** Every field is checked. */
  lemma FieldOrderComplete()
    ensures forall f :: f in FieldOrder
  {
    forall f: Field ensures f in FieldOrder {
      match f
      case Brand => assert FieldOrder[0] == f;
      case BusModel => assert FieldOrder[1] == f;
      case RegisterNumber => assert FieldOrder[2] == f;
      case AssemblyDate => assert FieldOrder[3] == f;
      case LastRepairDate => assert FieldOrder[4] == f;
    }
  }

  /** The label the message names the field by. */
  function Label(f: Field): string
  {
    match f
    case Brand => "Марка"
    case BusModel => "Модель"
    case RegisterNumber => "Регистрационный номер"
    case AssemblyDate => "Дата смерти"
    case LastRepairDate => "Дата гниения"
  }

  /** The edited bus as the form holds it; a field never filled in is
      `undefined`. */
  datatype BusDraft = BusDraft(
    brand: Option<string>,
    busModel: Option<string>,
    registerNumber: Option<string>,
    assemblyDate: Option<string>,
    lastRepairDate: Option<string>)

  function ValueOf(d: BusDraft, f: Field): Option<string>
  {
    match f
    case Brand => d.brand
    case BusModel => d.busModel
    case RegisterNumber => d.registerNumber
    case AssemblyDate => d.assemblyDate
    case LastRepairDate => d.lastRepairDate
  }

  /** `!value || value.trim() === ''`: undefined, empty or whitespace only. */
  predicate IsMissing(v: Option<string>)
  {
    v.None? || IsJsBlank(v.value)
  }

  datatype Validation = Validation(isValid: bool, message: string)

  function EmptyFieldMessage(f: Field): string
  {
    "Поле \"" + Label(f) + "\" не может быть пустым"
  }

  const DateFormatMessage: string := "Дата должна быть в формате ДД.ММ.ГГГГ"

  /** The first of `fields` that is missing in the draft, if any. */
  function FirstMissing(d: BusDraft, fields: seq<Field>): (r: Option<Field>)
    ensures r.None? <==> forall i :: 0 <= i < |fields| ==> !IsMissing(ValueOf(d, fields[i]))
    ensures r.Some? ==> exists i :: (0 <= i < |fields| && fields[i] == r.value && IsMissing(ValueOf(d, r.value)) &&
              forall j :: 0 <= j < i ==> !IsMissing(ValueOf(d, fields[j])))
    decreases |fields|
  {
    if |fields| == 0 then None
    else if IsMissing(ValueOf(d, fields[0])) then Some(fields[0])
    else
      var r := FirstMissing(d, fields[1..]);
      assert forall i :: 1 <= i < |fields| ==> fields[i] == fields[1..][i - 1];
      r
  }

  /** `validateFields`: the first missing field in form order, else a date
      that fails `isValidDateFormat`, else valid with an empty message. */
  function ValidateFields(d: BusDraft): (v: Validation)
    ensures v.isValid <==>
      && (forall f :: !IsMissing(ValueOf(d, f)))
      && d.assemblyDate.Some? && IsValidDateFormat(d.assemblyDate.value)
      && d.lastRepairDate.Some? && IsValidDateFormat(d.lastRepairDate.value)
    ensures v.isValid ==> v.message == ""
    ensures forall i :: (0 <= i < |FieldOrder| && IsMissing(ValueOf(d, FieldOrder[i])) &&
              (forall j :: 0 <= j < i ==> !IsMissing(ValueOf(d, FieldOrder[j])))) ==>
              v == Validation(false, EmptyFieldMessage(FieldOrder[i]))
    ensures (forall f :: !IsMissing(ValueOf(d, f))) && !v.isValid ==> v == Validation(false, DateFormatMessage)
  {
    FieldOrderComplete();
    match FirstMissing(d, FieldOrder)
    case Some(f) => Validation(false, EmptyFieldMessage(f))
    case None =>
      if !IsValidDateFormat(d.assemblyDate.value) || !IsValidDateFormat(d.lastRepairDate.value)
      then Validation(false, DateFormatMessage)
      else Validation(true, "")
  }

  /** Every rejection names what is wrong: the message of a missing field
      names that field alone, and the date message is none of them. */
  lemma MessagesIdentifyTheFault(f: Field, g: Field)
    ensures EmptyFieldMessage(f) == EmptyFieldMessage(g) ==> f == g
    ensures EmptyFieldMessage(f) != DateFormatMessage
    ensures EmptyFieldMessage(f) != ""
  {
  }

  /** A draft the validation accepts converts both dates without a null, so
      the create and update handlers always send two timestamps. */
  lemma ValidDraftConverts(d: BusDraft)
    requires ValidateFields(d).isValid
    ensures ConvertDateToIso(d.assemblyDate.value).Some?
    ensures ConvertDateToIso(d.lastRepairDate.value).Some?
  {
  }
}

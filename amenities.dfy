/**
 * The amenity decoder: a space-separated string of amenity codes such as
 * "WES DP FT DW SH RS PA L$" becomes a record of optional facts about a
 * campground.
 *
 * The string is stripped and split on single spaces, and every code is
 * applied to the record in turn. Each rule is a separate test, so one code
 * can update several fields ("NP" means neither a sanitary dump nor pets),
 * and a later code overrides what an earlier one wrote. The only way the
 * decoder can fail is a code containing "ft" whose part before the first
 * "ft" is not an integer literal.
 */
module Amenities {
  import opened Wrappers
  import opened Text

  datatype ToiletType = Flush | Vault | Mixed | Pit

  /**
   * The decoded record. `None` means that the information is not available;
   * `hasRvHookup` is `None` while the key is absent from the dictionary,
   * which only the hookup codes add.
   */
  datatype AmenityRecord = AmenityRecord(
    hasWaterHookup: Option<bool>,
    hasElectricHookup: Option<bool>,
    hasSewerHookup: Option<bool>,
    hasSanitaryDump: Option<bool>,
    maxRvLength: Option<int>,
    hasToilets: Option<bool>,
    toiletType: Option<ToiletType>,
    hasDrinkingWater: Option<bool>,
    hasShowers: Option<bool>,
    acceptsReservations: Option<bool>,
    acceptsPets: Option<bool>,
    lowNoFee: Option<bool>,
    hasRvHookup: Option<bool>)

  /** The `ValueError` raised by `int()` on the part of a length code before "ft". */
  datatype DecodeError = MalformedLength(code: string)

  /** The record before any code is applied: nothing is known and there is no hookup key. */
  const Default: AmenityRecord :=
    AmenityRecord(None, None, None, None, None, None, None, None, None, None, None, None, None)

  const HookupCodes: seq<string> := ["NH", "E", "WE", "WES"]
  const DumpCodes: seq<string> := ["DP", "NP"]
  const ToiletCodes: seq<string> := ["FT", "VT", "FTVT", "PT", "NT"]
  const DrinkingWaterCodes: seq<string> := ["DW", "NW"]
  const ShowerCodes: seq<string> := ["SH", "NS"]
  const ReservationCodes: seq<string> := ["RS", "NR"]
  const PetCodes: seq<string> := ["PA", "NP"]

  /** The name the record gives each kind of toilet. */
  function ToiletName(t: ToiletType): (name: string)
    ensures name in ["flush", "vault", "mixed", "pit"]
  {
    match t
    case Flush => "flush"
    case Vault => "vault"
    case Mixed => "mixed"
    case Pit => "pit"
  }

  /** The toilet map: which kind each toilet code other than "NT" stands for. */
  function ToiletOf(code: string): ToiletType
    requires code in ToiletCodes && code != "NT"
  {
    if code == "FT" then Flush
    else if code == "VT" then Vault
    else if code == "FTVT" then Mixed
    else Pit
  }

  /** A length code whose prefix `int()` rejects: the one code that makes the decoder raise. */
  predicate Malformed(code: string) {
    Contains(code, "ft") && ParseInt(BeforeFirst(code, "ft")).None?
  }

  // ---------------------------------------------------------------------
  // The decoder

  /** The hookup rule: "E", "WE", "WES" and "NH" set the three hookups by the letters they contain. */
  function HookupRule(rec: AmenityRecord, code: string): AmenityRecord {
    if code in HookupCodes then
      rec.(hasElectricHookup := Some(Contains(code, "E")),
           hasWaterHookup := Some(Contains(code, "W")),
           hasSewerHookup := Some(Contains(code, "S")),
           hasRvHookup := Some(code != "NH"))
    else rec
  }

  /** The sanitary dump rule: "DP" yes, "NP" no. */
  function DumpRule(rec: AmenityRecord, code: string): AmenityRecord {
    if code in DumpCodes then rec.(hasSanitaryDump := Some(code == "DP")) else rec
  }

  /** The length rule: a code containing "ft" sets the length to `int()` of its part before "ft", or raises. */
  function LengthRule(rec: AmenityRecord, code: string): (r: Result<AmenityRecord, DecodeError>)
    ensures r.Failure? <==> Malformed(code)
  {
    if Contains(code, "ft") then
      match ParseInt(BeforeFirst(code, "ft"))
      case None => Failure(MalformedLength(code))
      case Some(n) => Success(rec.(maxRvLength := Some(n)))
    else Success(rec)
  }

  /** The toilet rule: "NT" means no toilets; the other toilet codes mean toilets of their kind. */
  function ToiletRule(rec: AmenityRecord, code: string): AmenityRecord {
    if code in ToiletCodes then
      if code == "NT" then rec.(hasToilets := Some(false))
      else rec.(hasToilets := Some(true), toiletType := Some(ToiletOf(code)))
    else rec
  }

  /** The drinking water rule: "DW" yes, "NW" no. */
  function DrinkingWaterRule(rec: AmenityRecord, code: string): AmenityRecord {
    if code in DrinkingWaterCodes then rec.(hasDrinkingWater := Some(code == "DW")) else rec
  }

  /** The shower rule: "SH" yes, "NS" no. */
  function ShowerRule(rec: AmenityRecord, code: string): AmenityRecord {
    if code in ShowerCodes then rec.(hasShowers := Some(code == "SH")) else rec
  }

  /** The reservation rule: "RS" yes, "NR" no. */
  function ReservationRule(rec: AmenityRecord, code: string): AmenityRecord {
    if code in ReservationCodes then rec.(acceptsReservations := Some(code == "RS")) else rec
  }

  /** The pet rule: "PA" yes, "NP" no. */
  function PetRule(rec: AmenityRecord, code: string): AmenityRecord {
    if code in PetCodes then rec.(acceptsPets := Some(code == "PA")) else rec
  }

  /** The fee rule: "L$" says the fee is low or none; no code says otherwise. */
  function FeeRule(rec: AmenityRecord, code: string): AmenityRecord {
    if code == "L$" then rec.(lowNoFee := Some(true)) else rec
  }

  /** The rules after the length rule, in the source's order. */
  function LaterRules(rec: AmenityRecord, code: string): AmenityRecord {
    FeeRule(PetRule(ReservationRule(ShowerRule(DrinkingWaterRule(ToiletRule(rec, code), code), code), code), code), code)
  }

  /**
   * One pass of the loop body: the separate tests of the source, in its
   * order, each one applied to what the previous one left.
   */
  function ApplyToken(rec: AmenityRecord, code: string): (r: Result<AmenityRecord, DecodeError>)
    ensures r.Failure? <==> Malformed(code)
    ensures r.Failure? ==> r.error == MalformedLength(code)
  {
    match LengthRule(DumpRule(HookupRule(rec, code), code), code)
    case Failure(e) => Failure(e)
    case Success(r) => Success(LaterRules(r, code))
  }

  /** The loop: the codes applied from left to right, stopping at the first that raises. */
  function Fold(rec: AmenityRecord, codes: seq<string>): (r: Result<AmenityRecord, DecodeError>)
    decreases |codes|
  {
    if codes == [] then Success(rec)
    else
      match ApplyToken(rec, codes[0])
      case Failure(e) => Failure(e)
      case Success(next) => Fold(next, codes[1..])
  }

  /** The codes of an amenity string: `strip()`, then `split(" ")`. */
  function Codes(text: string): (codes: seq<string>)
    ensures |codes| >= 1
  {
    Split(Strip(text), ' ')
  }

  /** The decoder's result: the default record for `None`, otherwise the fold over the codes. */
  function AmenitiesOf(amenityStr: Option<string>): Result<AmenityRecord, DecodeError> {
    match amenityStr
    case None => Success(Default)
    case Some(text) => Fold(Default, Codes(text))
  }

  /** The hookup block of the loop body, updating the record field by field. */
  method SetHookups(amenity: AmenityRecord, code: string) returns (rec: AmenityRecord)
    ensures rec == HookupRule(amenity, code)
  {
    rec := amenity;
    if code in HookupCodes {
      rec := rec.(hasElectricHookup := Some(Contains(code, "E")));
      rec := rec.(hasWaterHookup := Some(Contains(code, "W")));
      rec := rec.(hasSewerHookup := Some(Contains(code, "S")));
      if code != "NH" {
        rec := rec.(hasRvHookup := Some(true));
      } else {
        rec := rec.(hasRvHookup := Some(false));
      }
    }
  }

  /** The length block of the loop body; it raises where `int()` does. */
  method SetLength(amenity: AmenityRecord, code: string) returns (result: Result<AmenityRecord, DecodeError>)
    ensures result == LengthRule(amenity, code)
  {
    var rec := amenity;
    if Contains(code, "ft") {
      var length := ParseInt(BeforeFirst(code, "ft"));
      if length.None? {
        return Failure(MalformedLength(code));
      }
      rec := rec.(maxRvLength := length);
    }
    return Success(rec);
  }

  /** The toilet block of the loop body. */
  method SetToilets(amenity: AmenityRecord, code: string) returns (rec: AmenityRecord)
    ensures rec == ToiletRule(amenity, code)
  {
    rec := amenity;
    if code in ToiletCodes {
      if code == "NT" {
        rec := rec.(hasToilets := Some(false));
      } else {
        rec := rec.(hasToilets := Some(true));
        rec := rec.(toiletType := Some(ToiletOf(code)));
      }
    }
  }

  /** The drinking water, shower, reservation, pet and fee blocks of the loop body. */
  method SetYesNo(amenity: AmenityRecord, code: string) returns (rec: AmenityRecord)
    ensures rec == FeeRule(PetRule(ReservationRule(ShowerRule(DrinkingWaterRule(amenity, code), code), code), code), code)
  {
    rec := amenity;
    if code in DrinkingWaterCodes {
      rec := rec.(hasDrinkingWater := Some(code == "DW"));
    }
    if code in ShowerCodes {
      rec := rec.(hasShowers := Some(code == "SH"));
    }
    if code in ReservationCodes {
      rec := rec.(acceptsReservations := Some(code == "RS"));
    }
    if code in PetCodes {
      rec := rec.(acceptsPets := Some(code == "PA"));
    }
    if code == "L$" {
      rec := rec.(lowNoFee := Some(true));
    }
  }

  /** The loop body: the blocks of the source in order, the length block possibly raising. */
  method ApplyCode(amenity: AmenityRecord, code: string) returns (result: Result<AmenityRecord, DecodeError>)
    ensures result == ApplyToken(amenity, code)
  {
    var rec := SetHookups(amenity, code);
    if code in DumpCodes {
      rec := rec.(hasSanitaryDump := Some(code == "DP"));
    }
    result := SetLength(rec, code);
    if result.Failure? {
      return;
    }
    rec := SetToilets(result.value, code);
    rec := SetYesNo(rec, code);
    result := Success(rec);
  }

  /** The decoder as the source writes it: `None` returns the default record, otherwise every code is applied in turn. */
  method DecodeAmenities(amenityStr: Option<string>) returns (result: Result<AmenityRecord, DecodeError>)
    ensures result == AmenitiesOf(amenityStr)
  {
    var amenity := Default;
    if amenityStr.None? {
      return Success(amenity);
    }
    var codes := Codes(amenityStr.value);
    for i := 0 to |codes|
      invariant Fold(amenity, codes[i..]) == AmenitiesOf(amenityStr)
    {
      assert codes[i..][1..] == codes[i + 1..];
      var next := ApplyCode(amenity, codes[i]);
      if next.Failure? {
        return next;
      }
      amenity := next.value;
    }
    return Success(amenity);
  }

  // ---------------------------------------------------------------------
  // The reference: what each code writes to each field

  /** The fields of the record, named after its keys. */
  datatype Field =
    | WaterHookup | ElectricHookup | SewerHookup | SanitaryDump | MaxRvLength
    | Toilets | ToiletKind | DrinkingWater | Showers | Reservations | Pets
    | LowNoFee | RvHookup

  /** A value a field can hold. */
  datatype Value = Flag(b: bool) | Length(n: int) | Kind(t: ToiletType)

  function FlagOf(o: Option<bool>): Option<Value> {
    match o
    case None => None
    case Some(b) => Some(Flag(b))
  }

  /** The value stored under a key, `None` while it is unknown or absent. */
  function Get(rec: AmenityRecord, f: Field): Option<Value> {
    match f
    case WaterHookup => FlagOf(rec.hasWaterHookup)
    case ElectricHookup => FlagOf(rec.hasElectricHookup)
    case SewerHookup => FlagOf(rec.hasSewerHookup)
    case SanitaryDump => FlagOf(rec.hasSanitaryDump)
    case MaxRvLength => if rec.maxRvLength.Some? then Some(Length(rec.maxRvLength.value)) else None
    case Toilets => FlagOf(rec.hasToilets)
    case ToiletKind => if rec.toiletType.Some? then Some(Kind(rec.toiletType.value)) else None
    case DrinkingWater => FlagOf(rec.hasDrinkingWater)
    case Showers => FlagOf(rec.hasShowers)
    case Reservations => FlagOf(rec.acceptsReservations)
    case Pets => FlagOf(rec.acceptsPets)
    case LowNoFee => FlagOf(rec.lowNoFee)
    case RvHookup => FlagOf(rec.hasRvHookup)
  }

  /** Two records that agree on every key are the same record. */
  lemma GetExtensional(a: AmenityRecord, b: AmenityRecord)
    requires forall f :: Get(a, f) == Get(b, f)
    ensures a == b
  {
    assert Get(a, WaterHookup) == Get(b, WaterHookup);
    assert Get(a, ElectricHookup) == Get(b, ElectricHookup);
    assert Get(a, SewerHookup) == Get(b, SewerHookup);
    assert Get(a, SanitaryDump) == Get(b, SanitaryDump);
    assert Get(a, MaxRvLength) == Get(b, MaxRvLength);
    assert Get(a, Toilets) == Get(b, Toilets);
    assert Get(a, ToiletKind) == Get(b, ToiletKind);
    assert Get(a, DrinkingWater) == Get(b, DrinkingWater);
    assert Get(a, Showers) == Get(b, Showers);
    assert Get(a, Reservations) == Get(b, Reservations);
    assert Get(a, Pets) == Get(b, Pets);
    assert Get(a, LowNoFee) == Get(b, LowNoFee);
    assert Get(a, RvHookup) == Get(b, RvHookup);
  }

  /** A hookup field: every hookup code writes it, `true` exactly for the codes in `yes`. */
  function HookupWritten(code: string, yes: seq<string>): Option<Value> {
    if code in HookupCodes then Some(Flag(code in yes)) else None
  }

  /** A yes/no field: code `yes` writes `true`, code `no` writes `false`, others leave it. */
  function YesNoWritten(code: string, yes: string, no: string): Option<Value> {
    if code == yes then Some(Flag(true)) else if code == no then Some(Flag(false)) else None
  }

  /** The length field: a code containing "ft" whose prefix is an integer literal writes that integer. */
  function LengthWritten(code: string): Option<Value> {
    if Contains(code, "ft") && ParseInt(BeforeFirst(code, "ft")).Some? then
      Some(Length(ParseInt(BeforeFirst(code, "ft")).value))
    else None
  }

  /** The toilet field: "NT" says no, the four kinds say yes. */
  function ToiletsWritten(code: string): Option<Value> {
    if code == "NT" then Some(Flag(false))
    else if code in ["FT", "VT", "FTVT", "PT"] then Some(Flag(true))
    else None
  }

  /** The toilet kind: one code per kind. */
  function KindWritten(code: string): Option<Value> {
    if code == "FT" then Some(Kind(Flush))
    else if code == "VT" then Some(Kind(Vault))
    else if code == "FTVT" then Some(Kind(Mixed))
    else if code == "PT" then Some(Kind(Pit))
    else None
  }

  /**
   * The amenity table, one field at a time: the value `code` writes to `f`,
   * or `None` when `code` leaves `f` alone. Written as a table of codes
   * rather than the letter tests of the decoder.
   */
  function Written(code: string, f: Field): Option<Value> {
    match f
    case WaterHookup => HookupWritten(code, ["WE", "WES"])
    case ElectricHookup => HookupWritten(code, ["E", "WE", "WES"])
    case SewerHookup => HookupWritten(code, ["WES"])
    case RvHookup => HookupWritten(code, ["E", "WE", "WES"])
    case SanitaryDump => YesNoWritten(code, "DP", "NP")
    case MaxRvLength => LengthWritten(code)
    case Toilets => ToiletsWritten(code)
    case ToiletKind => KindWritten(code)
    case DrinkingWater => YesNoWritten(code, "DW", "NW")
    case Showers => YesNoWritten(code, "SH", "NS")
    case Reservations => YesNoWritten(code, "RS", "NR")
    case Pets => YesNoWritten(code, "PA", "NP")
    case LowNoFee => if code == "L$" then Some(Flag(true)) else None
  }

  /** A write replaces the old value; no write keeps it. */
  function Overwrite(previous: Option<Value>, w: Option<Value>): Option<Value> {
    if w.Some? then w else previous
  }

  /** The letter tests of the hookup rule agree with the table. */
  lemma HookupLetters(code: string)
    requires code in HookupCodes
    ensures Contains(code, "E") <==> code != "NH"
    ensures Contains(code, "W") <==> code == "WE" || code == "WES"
    ensures Contains(code, "S") <==> code == "WES"
  {
    if code == "NH" {
      ContainsFirstChar(code, "E");
      ContainsFirstChar(code, "W");
      ContainsFirstChar(code, "S");
    } else if code == "E" {
      ContainsFirstChar(code, "W");
      ContainsFirstChar(code, "S");
    } else if code == "WE" {
      assert "E" <= code[1..];
      ContainsFirstChar(code, "S");
    } else {
      assert "E" <= code[1..];
      assert "S" <= code[2..];
      assert Contains(code[1..], "S");
    }
  }

  /** The fields of a rule that writes more than one. */
  const HookupFields: set<Field> := {WaterHookup, ElectricHookup, SewerHookup, RvHookup}
  const ToiletFields: set<Field> := {Toilets, ToiletKind}

  /**
   * `after` is `before` with the table's values for `code` written to the
   * fields in `owned`, and every other field as it was.
   */
  predicate Writes(before: AmenityRecord, after: AmenityRecord, code: string, owned: set<Field>) {
    && (forall f :: f in owned ==> Get(after, f) == Overwrite(Get(before, f), Written(code, f)))
    && (forall f :: f !in owned ==> Get(after, f) == Get(before, f))
  }

  /** Rules over disjoint fields compose into a rule over their union. */
  lemma WritesCompose(a: AmenityRecord, b: AmenityRecord, c: AmenityRecord, code: string, s: set<Field>, t: set<Field>)
    requires s !! t
    requires Writes(a, b, code, s) && Writes(b, c, code, t)
    ensures Writes(a, c, code, s + t)
  {
  }

  lemma HookupRuleWrites(rec: AmenityRecord, code: string)
    ensures Writes(rec, HookupRule(rec, code), code, HookupFields)
  {
    if code in HookupCodes {
      HookupLetters(code);
    }
  }

  lemma DumpRuleWrites(rec: AmenityRecord, code: string)
    ensures Writes(rec, DumpRule(rec, code), code, {SanitaryDump})
  {
  }

  lemma LengthRuleWrites(rec: AmenityRecord, code: string)
    requires !Malformed(code)
    ensures LengthRule(rec, code).Success?
    ensures Writes(rec, LengthRule(rec, code).value, code, {MaxRvLength})
  {
    var after := LengthRule(rec, code).value;
    if Contains(code, "ft") {
      var n := ParseInt(BeforeFirst(code, "ft")).value;
      assert after == rec.(maxRvLength := Some(n));
      assert Written(code, MaxRvLength) == Some(Length(n));
    } else {
      assert after == rec;
      assert Written(code, MaxRvLength) == None;
    }
  }

  lemma ToiletRuleWrites(rec: AmenityRecord, code: string)
    ensures Writes(rec, ToiletRule(rec, code), code, ToiletFields)
  {
  }

  lemma DrinkingWaterRuleWrites(rec: AmenityRecord, code: string)
    ensures Writes(rec, DrinkingWaterRule(rec, code), code, {DrinkingWater})
  {
  }

  lemma ShowerRuleWrites(rec: AmenityRecord, code: string)
    ensures Writes(rec, ShowerRule(rec, code), code, {Showers})
  {
  }

  lemma ReservationRuleWrites(rec: AmenityRecord, code: string)
    ensures Writes(rec, ReservationRule(rec, code), code, {Reservations})
  {
  }

  lemma PetRuleWrites(rec: AmenityRecord, code: string)
    ensures Writes(rec, PetRule(rec, code), code, {Pets})
  {
  }

  lemma FeeRuleWrites(rec: AmenityRecord, code: string)
    ensures Writes(rec, FeeRule(rec, code), code, {LowNoFee})
  {
  }

  /** The fields written before and after the length rule may raise. */
  const EarlyFields: set<Field> := {WaterHookup, ElectricHookup, SewerHookup, RvHookup, SanitaryDump, MaxRvLength}
  const LaterFields: set<Field> := {Toilets, ToiletKind, DrinkingWater, Showers, Reservations, Pets, LowNoFee}

  lemma EarlyLaterDisjoint()
    ensures EarlyFields !! LaterFields
  {
  }

  /** The hookup, dump and length rules together. */
  lemma EarlyRulesWrite(rec: AmenityRecord, code: string)
    requires !Malformed(code)
    ensures LengthRule(DumpRule(HookupRule(rec, code), code), code).Success?
    ensures Writes(rec, LengthRule(DumpRule(HookupRule(rec, code), code), code).value, code, EarlyFields)
  {
    var r1 := HookupRule(rec, code);
    var r2 := DumpRule(r1, code);
    HookupRuleWrites(rec, code);
    DumpRuleWrites(r1, code);
    WritesCompose(rec, r1, r2, code, HookupFields, {SanitaryDump});
    LengthRuleWrites(r2, code);
    WritesCompose(rec, r2, LengthRule(r2, code).value, code, HookupFields + {SanitaryDump}, {MaxRvLength});
    assert HookupFields + {SanitaryDump} + {MaxRvLength} == EarlyFields;
  }

  /** The toilet rule and the yes/no rules together. */
  lemma LaterRulesWrite(rec: AmenityRecord, code: string)
    ensures Writes(rec, LaterRules(rec, code), code, LaterFields)
  {
    var r4 := ToiletRule(rec, code);
    var r5 := DrinkingWaterRule(r4, code);
    var r6 := ShowerRule(r5, code);
    var r7 := ReservationRule(r6, code);
    var r8 := PetRule(r7, code);
    ToiletRuleWrites(rec, code);
    DrinkingWaterRuleWrites(r4, code);
    WritesCompose(rec, r4, r5, code, ToiletFields, {DrinkingWater});
    ShowerRuleWrites(r5, code);
    WritesCompose(rec, r5, r6, code, ToiletFields + {DrinkingWater}, {Showers});
    ReservationRuleWrites(r6, code);
    WritesCompose(rec, r6, r7, code, ToiletFields + {DrinkingWater} + {Showers}, {Reservations});
    PetRuleWrites(r7, code);
    WritesCompose(rec, r7, r8, code, ToiletFields + {DrinkingWater} + {Showers} + {Reservations}, {Pets});
    FeeRuleWrites(r8, code);
    WritesCompose(rec, r8, LaterRules(rec, code), code,
      ToiletFields + {DrinkingWater} + {Showers} + {Reservations} + {Pets}, {LowNoFee});
    assert ToiletFields + {DrinkingWater} + {Showers} + {Reservations} + {Pets} + {LowNoFee} == LaterFields;
  }

  /** Applying one well-formed code writes what the table says and leaves every other field as it was. */
  lemma ApplyTokenFieldwise(rec: AmenityRecord, code: string)
    requires !Malformed(code)
    ensures ApplyToken(rec, code).Success?
    ensures forall f :: Get(ApplyToken(rec, code).value, f) == Overwrite(Get(rec, f), Written(code, f))
  {
    EarlyRulesWrite(rec, code);
    var r3 := LengthRule(DumpRule(HookupRule(rec, code), code), code).value;
    LaterRulesWrite(r3, code);
    EarlyLaterDisjoint();
    WritesCompose(rec, r3, LaterRules(r3, code), code, EarlyFields, LaterFields);
    assert ApplyToken(rec, code) == Success(LaterRules(r3, code));
    forall f
      ensures f in EarlyFields + LaterFields
    {
    }
  }

  // ---------------------------------------------------------------------
  // The whole string: the last code that writes a field wins

  /**
   * The value of `f` after `codes`, read from the right: the value written
   * by the last code that writes `f`, or `d` when no code writes it.
   */
  function LastWritten(codes: seq<string>, f: Field, d: Option<Value>): Option<Value>
    decreases |codes|
  {
    if codes == [] then d
    else if Written(codes[|codes| - 1], f).Some? then Written(codes[|codes| - 1], f)
    else LastWritten(codes[..|codes| - 1], f, d)
  }

  /** Peeling the first code off: what it writes becomes the value the rest starts from. */
  lemma {:induction false} LastWrittenFirst(codes: seq<string>, f: Field, d: Option<Value>)
    requires codes != []
    ensures LastWritten(codes[1..], f, Overwrite(d, Written(codes[0], f))) == LastWritten(codes, f, d)
    decreases |codes|
  {
    if |codes| > 1 {
      var init := codes[..|codes| - 1];
      LastWrittenFirst(init, f, d);
      assert init[1..] == codes[1..][..|codes[1..]| - 1];
      assert init[0] == codes[0];
    }
  }

  /** The value is the one written by the last code that writes the field. */
  lemma {:induction false} LastWrittenIsLast(codes: seq<string>, f: Field, d: Option<Value>, k: int)
    requires 0 <= k < |codes| && Written(codes[k], f).Some?
    requires forall i :: k < i < |codes| ==> Written(codes[i], f).None?
    ensures LastWritten(codes, f, d) == Written(codes[k], f)
    decreases |codes|
  {
    if k < |codes| - 1 {
      var init := codes[..|codes| - 1];
      assert forall i :: k < i < |init| ==> init[i] == codes[i];
      LastWrittenIsLast(init, f, d, k);
    }
  }

  /** A field no code writes keeps its value. */
  lemma {:induction false} LastWrittenUntouched(codes: seq<string>, f: Field, d: Option<Value>)
    requires forall i :: 0 <= i < |codes| ==> Written(codes[i], f).None?
    ensures LastWritten(codes, f, d) == d
    decreases |codes|
  {
    if codes != [] {
      LastWrittenUntouched(codes[..|codes| - 1], f, d);
    }
  }

  /**
   * Folding well-formed codes from the left gives, for every field, the
   * value the last code writing it wrote, and the starting value for a
   * field no code writes.
   */
  lemma {:induction false} FoldLastWins(rec: AmenityRecord, codes: seq<string>)
    requires forall i :: 0 <= i < |codes| ==> !Malformed(codes[i])
    ensures Fold(rec, codes).Success?
    ensures forall f :: Get(Fold(rec, codes).value, f) == LastWritten(codes, f, Get(rec, f))
    decreases |codes|
  {
    if codes != [] {
      ApplyTokenFieldwise(rec, codes[0]);
      var next := ApplyToken(rec, codes[0]).value;
      FoldLastWins(next, codes[1..]);
      forall f
        ensures Get(Fold(rec, codes).value, f) == LastWritten(codes, f, Get(rec, f))
      {
        LastWrittenFirst(codes, f, Get(rec, f));
      }
    }
  }

  /** The fold raises exactly at the first malformed code, with that code. */
  lemma {:induction false} FoldFailsAtFirstMalformed(rec: AmenityRecord, codes: seq<string>, k: int)
    requires 0 <= k < |codes| && Malformed(codes[k])
    requires forall i :: 0 <= i < k ==> !Malformed(codes[i])
    ensures Fold(rec, codes) == Failure(MalformedLength(codes[k]))
    decreases |codes|
  {
    if k > 0 {
      var next := ApplyToken(rec, codes[0]).value;
      FoldFailsAtFirstMalformed(next, codes[1..], k - 1);
    }
  }

  /** The fold succeeds exactly when no code is malformed. */
  lemma FoldSucceeds(rec: AmenityRecord, codes: seq<string>)
    ensures Fold(rec, codes).Success? <==> forall i :: 0 <= i < |codes| ==> !Malformed(codes[i])
  {
    if forall i :: 0 <= i < |codes| ==> !Malformed(codes[i]) {
      FoldLastWins(rec, codes);
    } else {
      var k := FirstMalformed(codes);
      FoldFailsAtFirstMalformed(rec, codes, k);
    }
  }

  /** The index of the first malformed code, when there is one. */
  function FirstMalformed(codes: seq<string>): (k: int)
    requires exists i :: 0 <= i < |codes| && Malformed(codes[i])
    ensures 0 <= k < |codes| && Malformed(codes[k])
    ensures forall i :: 0 <= i < k ==> !Malformed(codes[i])
    decreases |codes|
  {
    if Malformed(codes[0]) then 0
    else
      assert exists i :: 0 <= i < |codes[1..]| && Malformed(codes[1..][i]) by {
        var i :| 0 <= i < |codes| && Malformed(codes[i]);
        assert codes[1..][i - 1] == codes[i];
      }
      1 + FirstMalformed(codes[1..])
  }

  /** The decoder on a string succeeds exactly when none of its codes is malformed. */
  lemma AmenitiesSucceed(text: string)
    ensures AmenitiesOf(Some(text)).Success? <==>
      forall i :: 0 <= i < |Codes(text)| ==> !Malformed(Codes(text)[i])
  {
    FoldSucceeds(Default, Codes(text));
  }

  /**
   * When the decoder succeeds, key `f` holds the value written by the last
   * code that writes it, or nothing when no code does.
   */
  lemma AmenitiesLastWins(text: string, f: Field)
    requires AmenitiesOf(Some(text)).Success?
    ensures Get(AmenitiesOf(Some(text)).value, f) == LastWritten(Codes(text), f, None)
  {
    AmenitiesSucceed(text);
    FoldLastWins(Default, Codes(text));
    DefaultUnknown(f);
  }

  /**
   * The decoded record is determined by the reference alone: two strings
   * whose codes leave the same last value on every key decode to the same
   * record, whatever the order or number of their codes.
   */
  lemma SameWritesSameRecord(text1: string, text2: string)
    requires AmenitiesOf(Some(text1)).Success? && AmenitiesOf(Some(text2)).Success?
    requires forall f :: LastWritten(Codes(text1), f, None) == LastWritten(Codes(text2), f, None)
    ensures AmenitiesOf(Some(text1)).value == AmenitiesOf(Some(text2)).value
  {
    var a, b := AmenitiesOf(Some(text1)).value, AmenitiesOf(Some(text2)).value;
    forall f
      ensures Get(a, f) == Get(b, f)
    {
      AmenitiesLastWins(text1, f);
      AmenitiesLastWins(text2, f);
    }
    GetExtensional(a, b);
  }

  /** Every key of the default record is unknown. */
  lemma DefaultUnknown(f: Field)
    ensures Get(Default, f) == None
  {
  }

  /** No code writes `false` to the fee key, so the value read from the right is never `false` unless it started so. */
  lemma {:induction false} FeeNeverNo(codes: seq<string>, d: Option<Value>)
    ensures LastWritten(codes, LowNoFee, d) == d || LastWritten(codes, LowNoFee, d) == Some(Flag(true))
    decreases |codes|
  {
    if codes != [] {
      FeeNeverNo(codes[..|codes| - 1], d);
    }
  }

  /** "L$" only ever sets `lowNoFee` to true; the decoder never reports a fee that is not low. */
  lemma LowNoFeeOnlyYes(text: string)
    requires AmenitiesOf(Some(text)).Success?
    ensures AmenitiesOf(Some(text)).value.lowNoFee != Some(false)
  {
    AmenitiesLastWins(text, LowNoFee);
    FeeNeverNo(Codes(text), None);
    FeeKey(AmenitiesOf(Some(text)).value);
  }

  /** The fee key of the reference table is the `lowNoFee` field. */
  lemma FeeKey(r: AmenityRecord)
    ensures r.lowNoFee == Some(false) <==> Get(r, LowNoFee) == Some(Flag(false))
  {
  }

  /** A key that some code writes ends up with a value. */
  lemma {:induction false} LastWrittenSome(codes: seq<string>, f: Field, d: Option<Value>, k: int)
    requires 0 <= k < |codes| && Written(codes[k], f).Some?
    ensures LastWritten(codes, f, d).Some?
    decreases |codes|
  {
    if k < |codes| - 1 && Written(codes[|codes| - 1], f).None? {
      LastWrittenSome(codes[..|codes| - 1], f, d, k);
    }
  }

  /** The rv-hookup key is present exactly when one of the codes is a hookup code. */
  lemma RvHookupKeyPresent(text: string)
    requires AmenitiesOf(Some(text)).Success?
    ensures AmenitiesOf(Some(text)).value.hasRvHookup.Some? <==>
      exists i :: 0 <= i < |Codes(text)| && Codes(text)[i] in HookupCodes
  {
    var codes := Codes(text);
    AmenitiesLastWins(text, RvHookup);
    if exists i :: 0 <= i < |codes| && codes[i] in HookupCodes {
      var i :| 0 <= i < |codes| && codes[i] in HookupCodes;
      LastWrittenSome(codes, RvHookup, None, i);
    } else {
      LastWrittenUntouched(codes, RvHookup, None);
    }
  }

  /** The codes the decoder recognises; "ft" codes are recognised by their letters instead. */
  const KnownCodes: seq<string> :=
    HookupCodes + DumpCodes + ToiletCodes + DrinkingWaterCodes + ShowerCodes + ReservationCodes + PetCodes + ["L$"]

  /** Any other code, the empty code between two spaces among them, changes nothing. */
  lemma UnknownCodeIgnored(rec: AmenityRecord, code: string)
    requires code !in KnownCodes && !Contains(code, "ft")
    ensures ApplyToken(rec, code) == Success(rec)
    ensures forall f :: Written(code, f).None?
  {
    assert forall c :: c in HookupCodes ==> c in KnownCodes;
    assert forall c :: c in ToiletCodes ==> c in KnownCodes;
  }

  // ---------------------------------------------------------------------
  // Worked examples

  /** `None` and a string of white space only both decode to the default record. */
  lemma AmenitiesBlank(text: string)
    requires forall i :: 0 <= i < |text| ==> IsSpace(text[i])
    ensures AmenitiesOf(Some(text)) == Success(Default)
    ensures AmenitiesOf(None) == Success(Default)
  {
    StripBlank(text);
    SplitWithoutSep([], ' ');
    assert Codes(text) == [""];
    ContainsLonger("", "ft");
    UnknownCodeIgnored(Default, "");
    assert [""][1..] == [];
  }

  /** A string that is one code, without white space, decodes to what that code writes to the default record. */
  lemma SingleCode(code: string)
    requires code != [] && forall i :: 0 <= i < |code| ==> !IsSpace(code[i])
    ensures AmenitiesOf(Some(code)) == ApplyToken(Default, code)
  {
    StripUnpadded(code);
    SplitWithoutSep(code, ' ');
    assert Codes(code) == [code];
    assert [code][1..] == [];
    match ApplyToken(Default, code)
    case Failure(e) =>
    case Success(next) => assert Fold(next, []) == Success(next);
  }

  /** The part of `p + "ft"` before its first "ft" is `p`, when `p` has no "f". */
  lemma BeforeFeet(p: string)
    requires 'f' !in p
    ensures Contains(p + "ft", "ft")
    ensures BeforeFirst(p + "ft", "ft") == p
  {
    var code := p + "ft";
    assert code[|p|..] == "ft";
    ContainsAt(code, "ft", |p|);
    BeforeFirstSpec(code, "ft");
    var b := BeforeFirst(code, "ft");
    assert |b| <= |p| by {
      assert !("ft" <= code[|p|..]) || |b| <= |p|;
    }
    assert code[|b|..][0] == 'f';
    assert |b| == |p|;
    assert b == code[..|b|];
    assert code[..|p|] == p;
  }

  /** The length code `<n>ft` sets the maximum RV length to `n` and nothing else. */
  lemma LengthCode(n: nat)
    ensures AmenitiesOf(Some(NatToString(n) + "ft")) == Success(Default.(maxRvLength := Some(n)))
  {
    var code := NatToString(n) + "ft";
    SingleCode(code);
    BeforeFeet(NatToString(n));
    ParseIntNatToString(n);
    assert code[|code| - 1] == 't';
    LowerTCode(Default, code);
  }

  /** `int()` accepts a minus sign, so `-<n>ft` sets a negative length: nothing keeps the length non-negative. */
  lemma NegativeLengthCode(n: nat)
    ensures AmenitiesOf(Some("-" + NatToString(n) + "ft")) == Success(Default.(maxRvLength := Some(-(n as int))))
  {
    var p := "-" + NatToString(n);
    var code := p + "ft";
    SingleCode(code);
    BeforeFeet(p);
    ParseIntNegative(n);
    assert code[|code| - 1] == 't';
    LowerTCode(Default, code);
  }

  /**
   * A length code whose prefix starts with neither a digit, a sign nor
   * white space, "abcft" among them, makes the decoder raise.
   */
  lemma MalformedPrefix(p: string)
    requires p != [] && 'f' !in p && forall i :: 0 <= i < |p| ==> !IsSpace(p[i])
    requires !IsDigit(p[0]) && p[0] != '+' && p[0] != '-'
    ensures AmenitiesOf(Some(p + "ft")) == Failure(MalformedLength(p + "ft"))
  {
    var code := p + "ft";
    SingleCode(code);
    BeforeFeet(p);
    StripUnpadded(p);
    assert Malformed(code);
  }

  /** A length prefix holding an information separator, `"30\x1cft"` among them, raises: `int()` does not skip it. */
  lemma SeparatorLengthCode(rec: AmenityRecord, p: string, k: int)
    requires 'f' !in p && 0 <= k < |p| && IsSeparator(p[k])
    ensures ApplyToken(rec, p + "ft") == Failure(MalformedLength(p + "ft"))
  {
    var code := p + "ft";
    BeforeFeet(p);
    ParseIntRejectsSeparator(p, k);
    assert code[|code| - 1] == 't';
    LowerTCode(rec, code);
  }

  /** White space `int()` skips may follow the digits of a length code: `"30\tft"` sets the length to 30. */
  lemma PaddedLengthCode(rec: AmenityRecord, n: nat, b: string)
    requires forall i :: 0 <= i < |b| ==> IsIntSpace(b[i])
    ensures ApplyToken(rec, NatToString(n) + b + "ft") == Success(rec.(maxRvLength := Some(n)))
  {
    var p := NatToString(n) + b;
    var code := p + "ft";
    assert 'f' !in p by {
      forall i | 0 <= i < |p|
        ensures p[i] != 'f'
      {
        if i >= |NatToString(n)| {
          assert p[i] == b[i - |NatToString(n)|];
        }
      }
    }
    BeforeFeet(p);
    assert [] + NatToString(n) + b == p;
    ParseIntPadded([], n, b);
    assert code[|code| - 1] == 't';
    LowerTCode(rec, code);
  }

  /** "NT" says there are no toilets and leaves the toilet kind as it was. */
  lemma NoToiletsKeepsKind(rec: AmenityRecord)
    ensures ApplyToken(rec, "NT") == Success(rec.(hasToilets := Some(false)))
  {
    ContainsFirstChar("NT", "ft");
  }

  /** No named code has a lower-case "t", so a code that has one is matched by the length rule alone. */
  lemma LowerTCode(rec: AmenityRecord, code: string)
    requires 't' in code
    ensures ApplyToken(rec, code) == LengthRule(rec, code)
  {
    assert forall c :: c in KnownCodes ==> 't' !in c;
  }

  /** A bare "ft", or "30 ft" with the number split off, raises: `int("")` is an error. */
  lemma BareFeetFails(text: string)
    requires text == "ft" || text == "30 ft"
    ensures AmenitiesOf(Some(text)) == Failure(MalformedLength("ft"))
  {
    assert BeforeFirst("ft", "ft") == [];
    ParseIntRejectsBlank([]);
    assert Malformed("ft");
    if text == "ft" {
      SingleCode(text);
    } else {
      StripUnpadded(text);
      assert text == "30" + [' '] + "ft";
      SplitAfterPiece("30", "ft", ' ');
      SplitWithoutSep("ft", ' ');
      assert Codes(text) == ["30", "ft"];
      ContainsFirstChar("30", "ft");
      FoldFailsAtFirstMalformed(Default, Codes(text), 1);
    }
  }

  /** "NP" is both "no sanitary dump" and "no pets". */
  lemma NoDumpNoPets(text: string)
    requires text == "NP"
    ensures AmenitiesOf(Some(text)) == Success(Default.(hasSanitaryDump := Some(false), acceptsPets := Some(false)))
  {
    SingleCode(text);
    NoDumpNoPetsCode(Default);
  }

  /** The code "NP" writes `false` to the sanitary dump and to the pets. */
  lemma NoDumpNoPetsCode(rec: AmenityRecord)
    ensures ApplyToken(rec, "NP") == Success(rec.(hasSanitaryDump := Some(false), acceptsPets := Some(false)))
  {
    ContainsFirstChar("NP", "ft");
  }

  /** A hookup code is matched by the hookup rule alone. */
  lemma HookupCodeOnly(rec: AmenityRecord, code: string)
    requires code in HookupCodes
    ensures ApplyToken(rec, code) == Success(HookupRule(rec, code))
  {
    ContainsFirstChar(code, "ft");
  }

  /** Applying "E" then "NH" leaves every hookup false: the later code overrides the earlier. */
  lemma HookupOverride(rec: AmenityRecord)
    ensures Fold(rec, ["E", "NH"]) == Success(rec.(hasWaterHookup := Some(false),
      hasElectricHookup := Some(false), hasSewerHookup := Some(false), hasRvHookup := Some(false)))
  {
    HookupLetters("E");
    HookupLetters("NH");
    HookupCodeOnly(rec, "E");
    HookupCodeOnly(HookupRule(rec, "E"), "NH");
    assert ["E", "NH"][1..] == ["NH"] && ["NH"][1..] == [];
  }

  /** "E NH" decodes with every hookup false and the rv-hookup key present and false. */
  lemma LaterHookupWins(text: string)
    requires text == "E NH"
    ensures AmenitiesOf(Some(text)) == Success(Default.(hasWaterHookup := Some(false),
      hasElectricHookup := Some(false), hasSewerHookup := Some(false), hasRvHookup := Some(false)))
  {
    StripUnpadded(text);
    assert text == "E" + [' '] + "NH";
    SplitAfterPiece("E", "NH", ' ');
    SplitWithoutSep("NH", ' ');
    assert Codes(text) == ["E", "NH"];
    HookupOverride(Default);
  }
}

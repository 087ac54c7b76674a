# Campground record decoders, modelled in Dafny

The campground API imports campground records whose fields arrive as raw
text. Four small decoders in `server/campsites_api/utils/process_campsites_data.py`
turn four of those fields into typed values:

- **Phone numbers.** Every character outside ASCII `[A-Za-z0-9]` is removed, and `None` stays `None` (`phone.dfy`).
- **Opening seasons.** A text such as `"mid may-late sep"` becomes an optional opening month and an optional closing month (`season.dfy`).
  - `-` is read as a space and the text is split on single spaces.
  - A first `pop(0)` scan stops at the first token that is exactly one of the abbreviations `jan`..`dec`.
  - A second scan stops at the next exact abbreviation or at the last token. That one token is then searched for every abbreviation as a substring, and the latest month in calendar order wins.
  - Exactly `"all year"` means January to December.
- **Countries.** A state or province code is `"CAN"` when it is one of the thirteen Canadian codes and `"USA"` otherwise (`country.dfy`).
- **Amenities.** A string of space-separated amenity codes becomes a record of optional facts (`amenities.dfy`).
  - Each code runs through a chain of independent rules: hookups, sanitary dump, RV length, toilets, drinking water, showers, reservations, pets and fee.
  - A later code overrides what an earlier one wrote.
  - The only failure is a code containing `ft` whose part before the first `ft` is rejected by `int()`.

`text.dfy` writes out the Python string built-ins the decoders rely on, on
`seq<char>`: `replace` of one character, `split(" ")`, `strip()`, substring
`in`, `split("ft")[0]` and `int()`. `wrappers.dfy` holds `Option` and `Result`.

The season and amenity decoders change state step by step in the source:
`pop(0)` loops, dictionary loops and a record updated field by field.

- **Methods.** They are modelled as methods with the same loops:
  - `Season.PopUntilMonth`, `Season.ExactMonth`, `Season.LastContainedMonth` and `Season.DecodeSeason`;
  - `Amenities.ApplyCode` with its blocks, and `Amenities.DecodeAmenities`.
- **Specification functions.** Each method is proved equal to the function that specifies it:
  - `DecodeSeason` to `SeasonOf`, `PopUntilMonth` to the slices at `StopIndex`, `ExactMonth` to `MonthNumber` and `LastContainedMonth` to `ContainedMonth`;
  - `DecodeAmenities` to `AmenitiesOf`, `ApplyCode` to `ApplyToken`, and `SetHookups`, `SetLength`, `SetToilets` and `SetYesNo` to the rule functions of their blocks.
- **Lemmas.** The properties the source promises are proved about those functions.
- **The amenity reference.** `Written` is a per-field table of what each code writes. The decoder is proved against it:
  - `ApplyTokenFieldwise` shows one code writes exactly what the table says.
  - `AmenitiesLastWins` shows that, over a whole string, the last code writing a field wins.

## Model


| member | source | states |
|---|---|---|
| Phone.KeepAlnum | server/campsites_api/utils/process_campsites_data.py:17 | the substitution on a string: every character outside `[A-Za-z0-9]` removed; its properties are the `KeepAlnum` lemmas below |
| Phone.NormalizePhone | server/campsites_api/utils/process_campsites_data.py:15-17 | the result is `None` exactly when the input is `None`, and otherwise holds only `[A-Za-z0-9]` characters |
| Phone.KeepAlnumOnlyAlnum | server/campsites_api/utils/process_campsites_data.py:17 | every character left by the substitution is in `[A-Za-z0-9]` |
| Phone.KeepAlnumDropsOthers | server/campsites_api/utils/process_campsites_data.py:17 | no character outside `[A-Za-z0-9]` survives |
| Phone.KeepAlnumKeepsCount | server/campsites_api/utils/process_campsites_data.py:17 | every `[A-Za-z0-9]` character survives as many times as it occurs |
| Phone.KeepAlnumConcat | server/campsites_api/utils/process_campsites_data.py:17 | what is kept of `a + b` is what is kept of `a` followed by what is kept of `b`, so order is preserved |
| Phone.KeepOne | server/campsites_api/utils/process_campsites_data.py:17 | a single character is kept exactly when it is in `[A-Za-z0-9]`, case unchanged |
| Phone.KeepAlnumFixesAlnum | server/campsites_api/utils/process_campsites_data.py:17 | a string already made of `[A-Za-z0-9]` is returned unchanged |
| Phone.KeepAlnumDropsAll | server/campsites_api/utils/process_campsites_data.py:17 | a string with no `[A-Za-z0-9]` character becomes empty |
| Phone.KeepAlnumSkip | server/campsites_api/utils/process_campsites_data.py:17 | punctuation in front of a string is dropped |
| Phone.NormalizeIdempotent | server/campsites_api/utils/process_campsites_data.py:15-17 | normalising twice is the same as normalising once |
| Phone.NormalizeFormatted | server/campsites_api/utils/process_campsites_data.py:15-17 | `(AAA) EEE-LLLL` normalises to the three alphanumeric groups joined |
| Phone.NormalizeExample | server/campsites_api/utils/process_campsites_data.py:5-17 | `(555) 123-4567` gives `5551234567`; `None` gives `None` |
| Country.CountryOf | server/campsites_api/utils/process_campsites_data.py:95-110 | the result is `"CAN"` or `"USA"`, and `"CAN"` exactly when the code is in the province list |
| Country.ProvinceCodes | server/campsites_api/utils/process_campsites_data.py:95-109 | the list has thirteen distinct codes and each one classifies as `"CAN"` |
| Country.NonCodeIsUnitedStates | server/campsites_api/utils/process_campsites_data.py:110 | anything but two upper-case letters classifies as `"USA"` |
| Country.CountryExamples | server/campsites_api/utils/process_campsites_data.py:95-110 | `ON` and `YT` are `"CAN"`; `CA`, `on` and the empty string are `"USA"` |
| Season.SeasonOf | server/campsites_api/utils/process_campsites_data.py:20-80 | the decoder's result on `None`, on `"all year"` and on any other text; its properties are the `Season` lemmas below |
| Season.SeasonOfTokens | server/campsites_api/utils/process_campsites_data.py:60-80 | the two months read from the tokens: the opening month at the first stop, the closing month from the tokens after it |
| Season.FirstMonthAt | server/campsites_api/utils/process_campsites_data.py:62-64 | the index of the first token that is exactly an abbreviation, if any, which is an index of the tokens (characterised by `FirstMonthAtSpec`) |
| Season.StopIndex | server/campsites_api/utils/process_campsites_data.py:62-75 | where a `pop(0)` scan stops: the first exact abbreviation, or the last token; always an index of the tokens |
| Season.MonthNumber | server/campsites_api/utils/process_campsites_data.py:44-67 | the month of a token equal to a key of the month map, if any (characterised by `MonthNumberExact`) |
| Season.OpenMonth | server/campsites_api/utils/process_campsites_data.py:62-67 | the opening month: the month number of the token where the first scan stops |
| Season.ContainedMonth | server/campsites_api/utils/process_campsites_data.py:44-78 | the latest month whose abbreviation occurs in a token (characterised by `ContainedMonthSpec`) |
| Season.CloseMonth | server/campsites_api/utils/process_campsites_data.py:69-78 | the closing month: none when no token is left, otherwise the latest month contained in the token where the second scan stops |
| Season.Tokens | server/campsites_api/utils/process_campsites_data.py:60 | replacing `-` and splitting on `" "` never gives an empty list, so the first `pop(0)` cannot fail |
| Season.MonthNumberExact | server/campsites_api/utils/process_campsites_data.py:44-57 | a token gets a month number exactly when it is a key of the month map, and key `k` gets month `k + 1` |
| Season.MonthNumberOf | server/campsites_api/utils/process_campsites_data.py:44-57 | each abbreviation maps to its own month |
| Season.MonthsDistinct | server/campsites_api/utils/process_campsites_data.py:44-57 | the twelve keys are distinct three-letter strings |
| Season.ExactMonthBelowSpec | server/campsites_api/utils/process_campsites_data.py:65-67 | after the first `n` keys, the month set is the one whose key equals the token, if any |
| Season.ContainedMonthBelowSpec | server/campsites_api/utils/process_campsites_data.py:76-78 | after the first `n` keys, the month set is the latest whose key occurs in the token, and none only when no key occurs |
| Season.ContainedMonthSpec | server/campsites_api/utils/process_campsites_data.py:76-78 | the closing loop settles on the latest month whose abbreviation occurs in the token, or none |
| Season.ContainedMonthOfMonth | server/campsites_api/utils/process_campsites_data.py:76-78 | an abbreviation contains only itself among the keys, so it closes on its own month |
| Season.FirstMonthAtSpec | server/campsites_api/utils/process_campsites_data.py:62-64 | the scan finds an exact abbreviation with none before it, or finds nothing only when no token is one |
| Season.PopUntilMonth | server/campsites_api/utils/process_campsites_data.py:62-64 | the `pop(0)` loop returns the token where the scan stops and exactly the tokens after it |
| Season.ExactMonth | server/campsites_api/utils/process_campsites_data.py:65-67 | the opening dictionary loop computes the month number of the token |
| Season.LastContainedMonth | server/campsites_api/utils/process_campsites_data.py:76-78 | the closing dictionary loop computes the latest contained month |
| Season.DecodeSeason | server/campsites_api/utils/process_campsites_data.py:20-80 | the decoder returns `SeasonOf` of its input |
| Season.SeasonEdges | server/campsites_api/utils/process_campsites_data.py:36-42 | `None` gives no months; exactly `"all year"` gives 1 and 12 |
| Season.SeasonBounds | server/campsites_api/utils/process_campsites_data.py:36-80 | every month returned is in 1..12 |
| Season.CloseNeedsOpen | server/campsites_api/utils/process_campsites_data.py:62-70 | a closing month is only found when an opening month was |
| Season.OpenIsFirstExactMonth | server/campsites_api/utils/process_campsites_data.py:60-67 | the opening month is `m` exactly when some token equals the key of `m` with no abbreviation before it; it is absent exactly when no token is an abbreviation |
| Season.OpenAtEndHasNoClose | server/campsites_api/utils/process_campsites_data.py:69-70 | when the opening abbreviation is the last token, there is no closing month |
| Season.OpenAtFirstToken | server/campsites_api/utils/process_campsites_data.py:62-75 | when the first token is an abbreviation, it opens the season and the closing month is read from the tokens after it |
| Season.CloseIsStop | server/campsites_api/utils/process_campsites_data.py:69-75 | after an opening abbreviation at token `j`, the closing month depends on the tokens after `j` alone |
| Season.CloseAtExactMonth | server/campsites_api/utils/process_campsites_data.py:73-78 | when a later token is exactly an abbreviation, the first such token gives the closing month |
| Season.CloseOfLastToken | server/campsites_api/utils/process_campsites_data.py:73-78 | with no exact abbreviation left, only the last token is searched |
| Season.SeasonOfTwoMonths | server/campsites_api/utils/process_campsites_data.py:62-78 | when both scans stop at exact abbreviations, the season is their two months |
| Season.TokensOfWords | server/campsites_api/utils/process_campsites_data.py:60 | words without spaces or dashes, joined by spaces, are cut back into those words |
| Season.DashedTokens | server/campsites_api/utils/process_campsites_data.py:60 | a dash between two parts is cut like a space |
| Season.TokensMidMayLateSep | server/campsites_api/utils/process_campsites_data.py:60 | `"mid may-late sep"` gives the tokens `mid`, `may`, `late`, `sep` |
| Season.SeasonMidMayLateSep | server/campsites_api/utils/process_campsites_data.py:20-80 | `"mid may-late sep"` gives May to September |
| Season.ContainedSeptember | server/campsites_api/utils/process_campsites_data.py:76-78 | the token `september` closes in September |
| Season.SeasonJanLateSeptember | server/campsites_api/utils/process_campsites_data.py:20-80 | `"jan late-september"` gives January to September |
| Season.ContainedNothing | server/campsites_api/utils/process_campsites_data.py:76-78 | the token `xyz` gives no closing month |
| Season.SeasonJanSeptemberXyz | server/campsites_api/utils/process_campsites_data.py:20-80 | `"jan september xyz"` gives January and no closing month, because the scan runs on to `xyz` |
| Season.SeasonJun | server/campsites_api/utils/process_campsites_data.py:20-80 | `"jun"` gives June and no closing month |
| Season.SeasonWithoutMonth | server/campsites_api/utils/process_campsites_data.py:39-70 | `"All Year"` (case differs) and `"xyz"` give no months |
| Season.NonMonthWords | server/campsites_api/utils/process_campsites_data.py:63 | `mid`, `late`, `september`, `xyz`, `All` and `Year` are not keys of the month map |
| Amenities.AmenitiesOf | server/campsites_api/utils/process_campsites_data.py:129-206 | the decoder's result: the default record for `None`, otherwise the codes applied in turn; its properties are the `Amenities` lemmas below |
| Amenities.Fold | server/campsites_api/utils/process_campsites_data.py:150-204 | the loop: codes applied left to right, stopping at the first that raises (characterised by `FoldLastWins`, `FoldFailsAtFirstMalformed` and `FoldSucceeds`) |
| Amenities.Malformed | server/campsites_api/utils/process_campsites_data.py:166-168 | a code on which the length block raises: it contains `ft` and `int()` rejects the part before the first `ft` |
| Amenities.HookupRule | server/campsites_api/utils/process_campsites_data.py:152-159 | the hookup block (characterised by `HookupRuleWrites`) |
| Amenities.DumpRule | server/campsites_api/utils/process_campsites_data.py:162-163 | the sanitary dump block (characterised by `DumpRuleWrites`) |
| Amenities.ToiletRule | server/campsites_api/utils/process_campsites_data.py:171-182 | the toilet block (characterised by `ToiletRuleWrites`) |
| Amenities.DrinkingWaterRule | server/campsites_api/utils/process_campsites_data.py:185-186 | the drinking water block (characterised by `DrinkingWaterRuleWrites`) |
| Amenities.ShowerRule | server/campsites_api/utils/process_campsites_data.py:189-190 | the shower block (characterised by `ShowerRuleWrites`) |
| Amenities.ReservationRule | server/campsites_api/utils/process_campsites_data.py:193-196 | the reservation block (characterised by `ReservationRuleWrites`) |
| Amenities.PetRule | server/campsites_api/utils/process_campsites_data.py:199-200 | the pet block (characterised by `PetRuleWrites`) |
| Amenities.FeeRule | server/campsites_api/utils/process_campsites_data.py:203-204 | the fee block (characterised by `FeeRuleWrites`) |
| Amenities.LaterRules | server/campsites_api/utils/process_campsites_data.py:171-204 | the blocks after the length block, in source order (characterised by `LaterRulesWrite`) |
| Amenities.Written | server/campsites_api/utils/process_campsites_data.py:151-204 | the reference table: the value one code writes to one key, or nothing, read off the source's conditions key by key |
| Amenities.LastWritten | server/campsites_api/utils/process_campsites_data.py:150-204 | the reference fold: the value written to a key by the last code writing it, else the starting value (characterised by `LastWrittenIsLast` and `LastWrittenUntouched`) |
| Amenities.Codes | server/campsites_api/utils/process_campsites_data.py:148 | stripping and splitting gives at least one code |
| Amenities.ToiletName | server/campsites_api/utils/process_campsites_data.py:176-182 | a toilet kind is named flush, vault, mixed or pit |
| Amenities.LengthRule | server/campsites_api/utils/process_campsites_data.py:166-168 | the length rule raises exactly on a code containing `ft` whose prefix `int()` rejects |
| Amenities.ApplyToken | server/campsites_api/utils/process_campsites_data.py:151-204 | one pass of the loop body raises exactly on such a code, and with that code |
| Amenities.SetHookups | server/campsites_api/utils/process_campsites_data.py:152-159 | the hookup block computes the hookup rule |
| Amenities.SetLength | server/campsites_api/utils/process_campsites_data.py:166-168 | the length block computes the length rule, raising where `int()` does |
| Amenities.SetToilets | server/campsites_api/utils/process_campsites_data.py:171-182 | the toilet block computes the toilet rule |
| Amenities.SetYesNo | server/campsites_api/utils/process_campsites_data.py:185-204 | the water, shower, reservation, pet and fee blocks compute their rules in order |
| Amenities.ApplyCode | server/campsites_api/utils/process_campsites_data.py:151-204 | the loop body computes `ApplyToken` |
| Amenities.DecodeAmenities | server/campsites_api/utils/process_campsites_data.py:113-206 | the decoder returns `AmenitiesOf` of its input |
| Amenities.HookupLetters | server/campsites_api/utils/process_campsites_data.py:152-155 | for the four hookup codes, containing `E`, `W` or `S` is the same as being one of the codes the table lists |
| Amenities.HookupRuleWrites | server/campsites_api/utils/process_campsites_data.py:152-159 | the hookup rule writes the table's values to the four hookup keys and nothing else |
| Amenities.DumpRuleWrites | server/campsites_api/utils/process_campsites_data.py:162-163 | the dump rule writes `DP` as true and `NP` as false, and nothing else |
| Amenities.LengthRuleWrites | server/campsites_api/utils/process_campsites_data.py:166-168 | on a well-formed code the length rule writes the parsed length, and nothing else |
| Amenities.ToiletRuleWrites | server/campsites_api/utils/process_campsites_data.py:171-182 | the toilet rule writes the toilet keys as the table says, and nothing else |
| Amenities.DrinkingWaterRuleWrites | server/campsites_api/utils/process_campsites_data.py:185-186 | `DW` writes true and `NW` false to drinking water, and nothing else |
| Amenities.ShowerRuleWrites | server/campsites_api/utils/process_campsites_data.py:189-190 | `SH` writes true and `NS` false to showers, and nothing else |
| Amenities.ReservationRuleWrites | server/campsites_api/utils/process_campsites_data.py:193-196 | `RS` writes true and `NR` false to reservations, and nothing else |
| Amenities.PetRuleWrites | server/campsites_api/utils/process_campsites_data.py:199-200 | `PA` writes true and `NP` false to pets, and nothing else |
| Amenities.FeeRuleWrites | server/campsites_api/utils/process_campsites_data.py:203-204 | `L$` writes true to the fee key, and nothing else |
| Amenities.EarlyRulesWrite | server/campsites_api/utils/process_campsites_data.py:152-168 | the rules up to the length rule write the table's values to their keys, and nothing else |
| Amenities.LaterRulesWrite | server/campsites_api/utils/process_campsites_data.py:171-204 | the rules after the length rule write the table's values to their keys, and nothing else |
| Amenities.ApplyTokenFieldwise | server/campsites_api/utils/process_campsites_data.py:151-204 | a well-formed code writes to every key what the table says, and leaves the keys it does not write unchanged |
| Amenities.LastWrittenIsLast | server/campsites_api/utils/process_campsites_data.py:150-204 | the reference value of a key is the one written by the last code that writes it |
| Amenities.LastWrittenUntouched | server/campsites_api/utils/process_campsites_data.py:150-204 | a key no code writes keeps its starting value |
| Amenities.FoldLastWins | server/campsites_api/utils/process_campsites_data.py:150-204 | folding well-formed codes succeeds, and each key ends with the last value written to it |
| Amenities.FoldFailsAtFirstMalformed | server/campsites_api/utils/process_campsites_data.py:150-168 | the fold raises at the first malformed code, with that code |
| Amenities.FoldSucceeds | server/campsites_api/utils/process_campsites_data.py:150-204 | the fold succeeds exactly when no code is malformed |
| Amenities.AmenitiesSucceed | server/campsites_api/utils/process_campsites_data.py:148-168 | decoding a string succeeds exactly when none of its codes is malformed |
| Amenities.AmenitiesLastWins | server/campsites_api/utils/process_campsites_data.py:129-206 | after a successful decode, each key holds the value written by the last code writing it, or stays unknown |
| Amenities.SameWritesSameRecord | server/campsites_api/utils/process_campsites_data.py:129-206 | two strings whose codes leave the same last value on every key decode to the same record, whatever the order or number of codes |
| Amenities.FeeNeverNo | server/campsites_api/utils/process_campsites_data.py:203-204 | no code writes false to the fee key |
| Amenities.LowNoFeeOnlyYes | server/campsites_api/utils/process_campsites_data.py:203-204 | the decoder never reports `low_no_fee` as false |
| Amenities.RvHookupKeyPresent | server/campsites_api/utils/process_campsites_data.py:156-159 | the rv-hookup key is present exactly when some code is a hookup code |
| Amenities.UnknownCodeIgnored | server/campsites_api/utils/process_campsites_data.py:150-204 | a code outside the known codes and without `ft` leaves the record unchanged and, per the table, writes no key |
| Amenities.AmenitiesBlank | server/campsites_api/utils/process_campsites_data.py:129-150 | `None` and any string of white space, the empty string included, give the default record |
| Amenities.SingleCode | server/campsites_api/utils/process_campsites_data.py:148-150 | a string that is one code decodes like that code applied to the default record |
| Amenities.BeforeFeet | server/campsites_api/utils/process_campsites_data.py:166-167 | the part before `ft` in `p + "ft"` is `p` when `p` has no `f` |
| Amenities.LowerTCode | server/campsites_api/utils/process_campsites_data.py:151-204 | a code with a lower-case `t` is matched by the length rule alone |
| Amenities.LengthCode | server/campsites_api/utils/process_campsites_data.py:166-168 | `<n>ft`, `30ft` among them, sets the maximum RV length to `n` and nothing else |
| Amenities.NegativeLengthCode | server/campsites_api/utils/process_campsites_data.py:167-168 | `-<n>ft` sets a negative length, so nothing keeps the length non-negative |
| Amenities.MalformedPrefix | server/campsites_api/utils/process_campsites_data.py:167 | `p + "ft"` raises on that code when `p` is non-empty, has no `f` and no white space, and does not start with a digit or a sign |
| Amenities.BareFeetFails | server/campsites_api/utils/process_campsites_data.py:148-167 | `ft` and `30 ft` raise on the code `ft` |
| Amenities.NoDumpNoPetsCode | server/campsites_api/utils/process_campsites_data.py:162-163 | `NP` writes false to both the sanitary dump and the pets |
| Amenities.NoDumpNoPets | server/campsites_api/utils/process_campsites_data.py:162-200 | the string `NP` decodes to no sanitary dump and no pets, everything else unknown |
| Amenities.SeparatorLengthCode | server/campsites_api/utils/process_campsites_data.py:166-168 | a length prefix holding one of U+001C..U+001F raises, since `int()` does not skip those characters |
| Amenities.PaddedLengthCode | server/campsites_api/utils/process_campsites_data.py:166-168 | white space `int()` skips may follow the digits: `<n>` plus such white space plus `ft` sets the length to `n` |
| Amenities.NoToiletsKeepsKind | server/campsites_api/utils/process_campsites_data.py:171-173 | `NT` sets no toilets and leaves the toilet type as it was |
| Amenities.HookupCodeOnly | server/campsites_api/utils/process_campsites_data.py:152-159 | a hookup code is matched by the hookup rule alone |
| Amenities.HookupOverride | server/campsites_api/utils/process_campsites_data.py:152-159 | `E` then `NH` leaves every hookup false: the later code overrides |
| Amenities.LaterHookupWins | server/campsites_api/utils/process_campsites_data.py:148-159 | `"E NH"` decodes with every hookup false and the rv-hookup key present and false |
| Text.Contains | server/campsites_api/utils/process_campsites_data.py:154-166 | substring `in`, as in `"E" in amenity_code` and `"ft" in amenity_code` (its properties are `ContainsAt` and the lemmas beside it) |
| Text.Strip | server/campsites_api/utils/process_campsites_data.py:148 | `str.strip()`: the string without leading and trailing white space (characterised by `StripSpec`) |
| Text.BeforeFirst | server/campsites_api/utils/process_campsites_data.py:167 | `split("ft")[0]` (characterised by `BeforeFirstSpec`) |
| Text.ParseInt | server/campsites_api/utils/process_campsites_data.py:167 | `int()` on a string: `None` where it raises (characterised by `ParseIntNatToString`, `ParseIntNegative`, `ParseIntPadded` and the rejection lemmas) |
| Text.Split | server/campsites_api/utils/process_campsites_data.py:60 | `split(" ")` gives at least one piece, and no piece contains the separator |
| Text.JoinSplit | server/campsites_api/utils/process_campsites_data.py:148 | joining the pieces of a split gives back the string |
| Text.SplitJoin | server/campsites_api/utils/process_campsites_data.py:148 | splitting a join of separator-free pieces gives back the pieces |
| Text.ReplaceChar | server/campsites_api/utils/process_campsites_data.py:60 | `replace("-", " ")` keeps the length, changes each `-` and nothing else, and leaves no `-` |
| Text.StripSpec | server/campsites_api/utils/process_campsites_data.py:148 | `strip()` keeps the middle slice; what it cuts is white space, and the result neither starts nor ends with white space |
| Text.StripBlank | server/campsites_api/utils/process_campsites_data.py:148 | a string of white space strips to the empty string |
| Text.BeforeFirstSpec | server/campsites_api/utils/process_campsites_data.py:167 | `split("ft")[0]` is the prefix before the first `ft`, or the whole string when there is none |
| Text.ParseIntNatToString | server/campsites_api/utils/process_campsites_data.py:167 | `int(str(n)) == n` |
| Text.ParseIntNegative | server/campsites_api/utils/process_campsites_data.py:167 | `int("-" + str(n)) == -n` |
| Text.ParseIntPadded | server/campsites_api/utils/process_campsites_data.py:167 | `int(a + str(n) + b) == n` when `a` and `b` hold only white space `int()` skips: tab to carriage return, space, U+0085 and U+00A0 |
| Text.ParseIntRejectsSeparator | server/campsites_api/utils/process_campsites_data.py:167 | `int()` rejects any string holding one of U+001C..U+001F, `"30\x1c"` among them |
| Text.ParseIntRejectsBlank | server/campsites_api/utils/process_campsites_data.py:167 | `int()` rejects the empty string and white space |

## Left out

- The regular-expression engine behind `re.sub` (line 17) is not modelled. The normaliser is the character filter the pattern `[^A-Za-z0-9]+` amounts to: removing runs of such characters removes each of them.
- `int()` is modelled on ASCII digits only. Non-ASCII decimal digits, which Python's `int()` also accepts, are not modelled.
- Within that scope, the model of `int()` follows CPython:
  - surrounding white space is ignored;
  - one optional sign is allowed;
  - single underscores may appear between digits.
- `str.strip()` uses the white space of Python's `str.isspace()` below U+0100: tab through carriage return, U+001C..U+001F, space, U+0085 and U+00A0.
- `int()` skips the same set except U+001C..U+001F (`IsIntSpace`). It raises on those four characters even at the ends.
- White space above U+00FF (U+2000..U+200A, U+3000 and others) is not modelled for either.
- ParseInt: the limit Python 3.11 and later put on `int()` of a decimal string (more than 4300 digits raises `ValueError` by default) is not modelled. The limit depends on the interpreter version and on `sys.set_int_max_str_digits`, so `ParseInt` accepts literals of any length.
  - `ParseIntNatToString`, `Malformed`, `LengthRule` and `ApplyToken` state what happens below that limit.
- SetLength: it raises where `int()` does, with the same two gaps as `ParseInt` (non-ASCII digits and the digit-count limit).
- The `ValueError` that `int()` raises is a `Failure(MalformedLength(code))` result. The decoder's exception is not modelled as an exception.
- The result dictionaries are datatypes rather than JSON-shaped dicts:
  - a `None` field means "unknown";
  - `hasRvHookup` is `None` while the `has_rv_hookup` key is absent;
  - the toilet type is an enumeration, with `ToiletName` giving the strings the dict holds.
- The docstring of the country classifier (line 93) says it returns "United States" or "Canada". The code returns `"CAN"` or `"USA"`, and the model follows the code.
- Callers, persistence and I/O are not modelled; none appears in the decoders. The amenity-code website named at lines 116-117 is not part of this model.
- The amenity dictionary is a record value that the methods reassign field by field. It is never shared, so aliasing has nothing to capture.

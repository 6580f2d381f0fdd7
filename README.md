# Monster report and vault-monster extractor, modelled in Dafny

`monster` prints a one-line report about a Dungeon Crawl Stone Soup monster:
its speed, health, armour, resistances, attacks, flags, spells and
abilities, and its experience value. It generates the monster a thousand
times and aggregates what it sees. `parse_des.py` is a companion script. It
walks the game's `.des` vault files and extracts every MONS/KMONS monster
spec. It then writes them out as a C++ source file, which `monster` uses as
its fallback for names it cannot resolve.

This project models the self-contained logic around the game-engine calls.
Each engine query is an abstract input: a parameter, a function value, or a
record of samples.

From `monster-main.cc` it models:

- **Text building.**
  - `colour`, both on a terminal and in IRC mode.
  - The string accumulators: `record_resvul`, `record_resist`, `monster_action_cost`, `monster_speed`, `mons_flag` and `mons_check_flag`.
  - The dice and damage strings.
  - The health, magic-resistance, resistance and chunks fragments of the report.
- **Spell names and lists.**
  - `shorten_spell_name`, including its `size_type` wrap-around.
  - Ability recording and `mons_special_ability_set`.
  - `mons_spell_set`, `record_spell_set` and `mons_spells_abilities`.
- **The flow of `main`.**
  - Resolving a name: canned reports, the primary parse and its "the " retry, and the vault fallback.
  - `rebind_mspec`.
  - The trial loop with `set_min_max` and the means.

From `parse_des.py` it models:

- the three whitespace and newline cleanups;
- `cleanup_mons_line`, `parse_mons_line` and `cull_unnamed_monsters`;
- the file filter and deduplication of `generate_monster_lines`;
- the chunks written by `publish_monsters_as_cpp`.

Modules follow the program's structure:

| module | covers |
|---|---|
| `Text` | strings and Python/C++ string primitives |
| `Colours` | colour escapes |
| `SpellNames` | name shortening |
| `Dice` | dice and damage strings |
| `Fragments` | report fragments and accumulators |
| `Spells` | spell and ability lists, `std::set` as a sorted sequence |
| `Resolution` | name resolution and rebinding |
| `Trials` | the averaging loop |
| `DesCleanup`, `DesParse`, `DesGenerate` | the extractor |

Where the code changes state step by step, the model keeps that form:

- The C++ reference accumulators become methods. Each returns the new string, and its contract ties that string to a `Section` of all pieces recorded so far.
- Loops stay loops, with invariants tied to specification functions.
- The model states the properties of those functions as lemmas.

One place where the code and its prose description differ is "Bolt of Fire". The prose expects "fire b.". The code swaps the name to "fire bolt" and then prefixes "b.", which gives "b.fire". The model follows the code (`SpellNames.ExampleBoltOfFire`).

## Model

| member | source | states |
|---|---|---|
| Colours.Colour | monster-main.cc:98-118 | `colour`; its behaviour is stated by ColourPlainIff, ColourFrames and ColourInjective |
| Colours.ColourPlainIff | monster-main.cc:98-118 | the text comes back unmarked exactly when the colour is black, on a terminal and in IRC mode |
| Colours.ColourFrames | monster-main.cc:103-117 | a marked text is an opening that depends only on colour and background, the text, then ESC[0m on a terminal or ^O in IRC mode |
| Colours.TtyLayout | monster-main.cc:107-108 | the ANSI opening is nine characters: 4 or 3 for background or foreground, the `bgr` digit of the low three bits, and bold exactly for the light colours |
| Colours.BgrReversesBits | monster-main.cc:90 | the `bgr` table reverses the three colour bits, so applying it twice is the identity |
| Colours.IrcOpenInjective | monster-main.cc:111-116 | different non-black colours have different IRC codes |
| Colours.TtyOpenInjective | monster-main.cc:107-108 | different colours have different ANSI escapes |
| Colours.ColourInjective | monster-main.cc:98-118 | a coloured fragment determines both its colour and its text |
| Fragments.MonsterActionCost | monster-main.cc:156-164 | appends "desc: N%" (ten times the cost) after "; " only when the cost is not 10; the accumulator stays the "; " join of the nonempty qualifiers recorded so far |
| Fragments.ShownEmptyIff | monster-main.cc:158 | no qualifiers are shown exactly when every cost is 10 |
| Fragments.ShownAppend | monster-main.cc:156-164 | the qualifiers of consecutive calls concatenate in call order |
| Fragments.MonsterSpeed | monster-main.cc:166-209 | the speed text is the speed range followed by the parenthesised qualifiers, group by group |
| Fragments.QualifiersAreShownCosts | monster-main.cc:184-203 | the qualifiers shown are exactly the non-10 costs of the pairs considered, in order |
| Fragments.ActionCostsChoice | monster-main.cc:185-202 | "act" replaces the five separate action costs exactly when they share one cost other than 10; swim is considered exactly when it differs from move |
| Fragments.NoQualifiersIff | monster-main.cc:205-206 | " (...)" is omitted exactly when all seven costs are 10 |
| Fragments.SpeedRangeDashIff | monster-main.cc:174-177 | for nonnegative speeds, "min-max" is printed exactly when min and max differ |
| Fragments.MonsFlag | monster-main.cc:211-217 | the first flag opens " \| Flags: " and later ones follow ", " |
| Fragments.MonsCheckFlag | monster-main.cc:219-224 | the flag is recorded exactly when it is set; otherwise the section is unchanged |
| Fragments.RecordResvul | monster-main.cc:124-144 | opens " \| caption: " or appends ", ", then the boosted colour of the name with its pluses |
| Fragments.BoostBrightens | monster-main.cc:132-135 | a dark colour turns bright for vulnerabilities, for level 3, and for brown at level 1; nothing else changes |
| Fragments.ResistTokenPluses | monster-main.cc:137-141 | levels 2 and 3 append that many '+' characters to the name; other levels append none |
| Fragments.RecordResist | monster-main.cc:146-154 | a positive level adds a "Res" piece, a negative one a "Vul" piece of its magnitude, zero adds nothing |
| Fragments.RecordResistances | monster-main.cc:910-946 | the res/res2 calls in order leave "Res" and "Vul" as the sections of the pieces of every entry |
| Fragments.ResistPieceCounts | monster-main.cc:146-154 | one resistance piece per positive level, one vulnerability piece per negative level |
| Fragments.FireSuppressedIff | monster-main.cc:931-933 | hellfire comes first, and fire is reported exactly when the table entry has no hellfire resistance |
| Fragments.ResistanceReport | monster-main.cc:881-946 | magic resistance comes first in "Res", then the resistance levels in report order |
| Fragments.ToShort | monster-main.cc:896 | `(short int)` gives the value in the short range that agrees with the input modulo 65536, so values in range are unchanged |
| Fragments.MagicAmount | monster-main.cc:889-907 | the number inside "magic(...)"; stated by MagicAmountNegative and MagicAmountPositive |
| Fragments.MagicAbsentIff | monster-main.cc:881-908 | magic resistance is reported unless the table value is 0 |
| Fragments.MagicAmountNegative | monster-main.cc:889-897 | a negative table value shows hit dice times its magnitude times 4/3, truncated, and never below zero |
| Fragments.MagicAmountPositive | monster-main.cc:899-907 | a positive table value that fits a short is shown as it is |
| Fragments.HealthText | monster-main.cc:647-653 | the health range; stated by HealthDashIff and HealthMatchesSpeedFormat |
| Fragments.HealthDashIff | monster-main.cc:647-653 | "lo-hi" is printed exactly when the lowest hit points are below the highest |
| Fragments.HealthMatchesSpeedFormat | monster-main.cc:647-653 | for ordered bounds, health uses the same range format as speed |
| Fragments.ChunksText | monster-main.cc:951-975 | the chunks field; stated by ChunksShownIff |
| Fragments.ChunksShownIff | monster-main.cc:951-975 | the chunks field appears exactly for a nonzero weight with a corpse that has an effect; unknown effects print "???" |
| Dice.DiceString | monster-main.cc:248-251 | `dice_def_string`; stated by DiceRoundTrip and DiceCountShownIff |
| Dice.DiceRoundTrip | monster-main.cc:248-251 | every dice string reads back as the count and size it shows |
| Dice.DiceCountShownIff | monster-main.cc:248-251 | the count is omitted exactly for a single die |
| Dice.IoodDice | monster-main.cc:253-257 | an orb of destruction rolls 8 dice of a quarter of its power, truncated toward zero, so the size has the sign of the power |
| Dice.AirstrikeUpperBound | monster-main.cc:263-265 | airstrike damage reads "0-" followed by 10 plus twice the hit dice |
| Dice.SpellDamageString | monster-main.cc:267-282 | the spell damage text; stated by SpellDamageEmptyIff, SpellDamageDice, IoodDice and AirstrikeUpperBound |
| Dice.SpellDamageEmptyIff | monster-main.cc:267-282 | the damage text is empty exactly when an ordinary beam has no count or no size, or an orb's power is strictly between -4 and 4; smiting and airstrike always show damage |
| Dice.SpellDamageDice | monster-main.cc:279-280 | shown dice are " (" + dice + ")" and read back as the beam's dice |
| Dice.DamageFlavourOverloadsAgree | monster-main.cc:442-452 | the two `damage_flavour` overloads print the same text for a range |
| Dice.ElementalRangesOrdered | monster-main.cc:694-727 | cold, electricity and fire damage all start at the hit dice and are well formed; cold reaches furthest, then fire, then electricity |
| SpellNames.SizeSub | monster-main.cc:296-297 | subtraction in `size_type` wraps below zero |
| SpellNames.Find | monster-main.cc:286-296 | `find` returns the first match position, or npos only when there is no match |
| SpellNames.Substr | monster-main.cc:290-297 | `substr` takes at most n characters from pos |
| SpellNames.ShortenSpellName | monster-main.cc:284-299 | `shorten_spell_name` as its five steps in order; stated by ShortenIsLowerCase, ShortenFixedPoint, NotIdempotent, the step lemmas and the examples |
| SpellNames.ShortenIsLowerCase | monster-main.cc:284-299 | a shortened name has no upper-case letter |
| SpellNames.DropPossessiveSplits | monster-main.cc:286-291 | a possessive loses everything up to and including the first space after the apostrophe |
| SpellNames.DropPossessiveNoApostrophe | monster-main.cc:286-287 | without an apostrophe the name is unchanged |
| SpellNames.DropPossessiveNoSpace | monster-main.cc:288-290 | without a space after the apostrophe the name is unchanged |
| SpellNames.SwapOfSplits | monster-main.cc:292-293 | "x of y" becomes "y x" whenever the " of " after x is the first one in the name |
| SpellNames.SwapOfOneWord | monster-main.cc:292-293 | in particular, "x of y" with a one-word x becomes "y x" |
| SpellNames.SwapOfKeeps | monster-main.cc:292 | a name without " of " is kept |
| SpellNames.DropSummonIff | monster-main.cc:294-295 | a leading "summon " is dropped, except from exactly "summon undead" |
| SpellNames.AbbreviateThreeCharacters | monster-main.cc:296-297 | a three-character name compares npos with npos, so it gains "b.": "ice" becomes "b.ice" |
| SpellNames.AbbreviateBoltAlone | monster-main.cc:296-297 | "bolt" becomes "b.bolt", because `substr(0, npos)` is the whole name |
| SpellNames.AbbreviateTrailingBolt | monster-main.cc:296-297 | a name ending in its only "bolt" loses its last five characters and gains "b." |
| SpellNames.AbbreviateWordBolt | monster-main.cc:296-297 | a word without 'b' followed by " bolt" becomes "b." and the word |
| SpellNames.AbbreviateKeeps | monster-main.cc:296 | a name that is not three characters long and does not end in "bolt" is kept |
| SpellNames.ShortenFixedPoint | monster-main.cc:284-299 | a lower-case name that no rule touches is returned unchanged |
| SpellNames.NotIdempotent | monster-main.cc:286-291 | shortening twice can differ from once: "a's b's c" becomes "b's c" and then "c" |
| SpellNames.ExampleZinsFury | monster-main.cc:284-299 | "Zin's Fury" shortens to "fury" |
| SpellNames.ExampleBoltOfFire | monster-main.cc:284-299 | "Bolt of Fire" shortens to "b.fire" |
| SpellNames.ExampleSummonUndead | monster-main.cc:294 | "Summon Undead" keeps its verb |
| SpellNames.ExampleSymbolOfTorment | monster-main.cc:292-293 | "symbol of torment" shortens to "torment symbol" |
| Spells.LessTransitive | monster-main.cc:337 | the `std::string` order that `std::set` uses is transitive |
| Spells.LessTotal | monster-main.cc:337 | that order relates any two different strings |
| Spells.Insert | monster-main.cc:325 | `std::set::insert` keeps the set sorted and adds exactly the new element |
| Spells.Collect | monster-main.cc:337-339 | the set built by inserting names one by one is sorted and holds exactly those names |
| Spells.RecordedAbility | monster-main.cc:301-327 | what one call of `mons_record_ability` inserts; stated by NoAbilityIff, TormentOverridesBlink, MoveIsBlink and AcidSplashExtra |
| Spells.AbilityText | monster-main.cc:313-323 | the recorded text of an ability starts with its shortened name |
| Spells.NoAbilityIff | monster-main.cc:308-313 | a trial records nothing exactly when the beam is unnamed and there was neither a torment nor a move |
| Spells.TormentOverridesBlink | monster-main.cc:309-312 | a torment is recorded as "torment symbol" even when the monster also moved |
| Spells.MoveIsBlink | monster-main.cc:309-310 | without a torment, a move is recorded as "blink" |
| Spells.AcidSplashExtra | monster-main.cc:315-323 | acid splash with dice shows its dice plus EQ_MAX_ARMOUR - EQ_MIN_ARMOUR + 2 d5 (one more than the armour slots) |
| Spells.RecordedNames | monster-main.cc:338-339 | the names recorded over the trials are exactly the abilities some trial produced |
| Spells.AbilitySetLists | monster-main.cc:337-342 | each recorded ability is listed once, in set order, joined by ", " |
| Spells.MonsSpecialAbilitySet | monster-main.cc:329-343 | draconians other than yellow report nothing; otherwise the fifty tries give the ability set |
| Spells.Distinct | monster-main.cc:365-366 | the listed spells are exactly the real spells of the slots, each once |
| Spells.DistinctInOrder | monster-main.cc:362-366 | listed spells keep the order of their first occurrence |
| Spells.BreathListedFirst | monster-main.cc:362-371 | a breathing draconian's breath is listed first, under the origin spell's shortened title |
| Spells.MonsSpellSet | monster-main.cc:357-379 | the loop's text is the ", " accumulation of the distinct spells' texts, breath slot first |
| Spells.ListSpell | monster-main.cc:365-376 | one pass lists a spell only if it is real and not seen before, keeping `seen` equal to the listed spells |
| Spells.RecordSpellSet | monster-main.cc:381-387 | a nonempty spell list joins the sorted set; an empty one leaves it unchanged |
| Spells.MonsSpellsAbilities | monster-main.cc:389-410 | "(random)" for shapeshifters and pandemonium lords; otherwise the abilities and the spell sets |
| Spells.SpellsAbilitiesParts | monster-main.cc:397-408 | the abilities lead, the spell sets joined by " / " close, and "; " separates them only when both are present |
| Resolution.CannedReportFirst | monster-main.cc:513-521 | the canned report found is the one at the first exactly matching name |
| Resolution.FindCanned | monster-main.cc:513-521 | the scan returns the first matching canned report, or none |
| Resolution.ParseWithRetry | monster-main.cc:523-531 | "the " is retried only after a failed parse, and the error is cleared only when the retry succeeds |
| Resolution.Resolution | monster-main.cc:512-554 | the outcome of name resolution; stated by CannedShortCircuits, FoundIsValid, UnknownMessage and RetriedNameReported |
| Resolution.ResolveTarget | monster-main.cc:512-554 | the method's outcome is the resolution function's: canned report, error message, or spec with its vault flag |
| Resolution.CannedShortCircuits | monster-main.cc:516-519 | an exact canned name short-circuits everything else |
| Resolution.FoundIsValid | monster-main.cc:533-554 | a resolved spec has a valid type; it came from the vault exactly when the parse gave no valid spec |
| Resolution.UnknownMessage | monster-main.cc:537-551 | resolution fails exactly when no canned name, parse or vault lookup gives a valid type; the parse error is printed if it survived, else "unknown monster" with the retried name |
| Resolution.RetriedNameReported | monster-main.cc:527-547 | when the "the " retry succeeds but its spec is invalid, the message names the retried target |
| Resolution.DraconianPrefix | monster-main.cc:459 | `find("draconian") == 0` means the name starts with "draconian" |
| Resolution.Rebound | monster-main.cc:454-472 | the request and spec after `rebind_mspec`; stated by ReboundIff and ReboundIdempotent |
| Resolution.ReboundIff | monster-main.cc:454-472 | the request is rebound exactly when it differs from the actual name, starts with "draconian" and the actual name parses; otherwise nothing changes |
| Resolution.ReboundIdempotent | monster-main.cc:454-472 | rebinding again to the same monster changes nothing |
| Resolution.RebindMspec | monster-main.cc:454-472 | the method performs the rebinding |
| Trials.SetMinMax | monster-main.cc:412-417 | 0 means unset: the first sample sets a bound, later ones widen it |
| Trials.TrackedIsRange | monster-main.cc:412-417 | over nonzero samples the tracked pair is the true minimum and maximum, both samples, bounding every sample |
| Trials.ZeroSampleForgotten | monster-main.cc:413-416 | a zero sample reads as unset, so the next sample replaces it |
| Trials.RecordSpells | monster-main.cc:578-579 | spell sets are recorded for every monster that is not a zombie |
| Trials.RecordTrial | monster-main.cc:576-590 | one trial records the spell list, adds to the sums, widens the ranges and rebinds |
| Trials.Trials | monster-main.cc:562-601 | the outcome of the trial loop; stated by TrialsFailed, TrialsCompleted, CompletedMeans, CompletedRanges and SpellSetsCollected |
| Trials.RunTrials | monster-main.cc:562-601 | the loop's outcome is the trials function of the samples: a generation failure or the completed statistics |
| Trials.AfterSums | monster-main.cc:566-582 | the running sums are the sums of XP, AC and EV over the trials |
| Trials.AfterRanges | monster-main.cc:583-584 | the running ranges are what `set_min_max` makes of the speeds and hit points |
| Trials.AfterSpellSets | monster-main.cc:578-579 | the running set holds the spell lists that living monsters offered |
| Trials.AfterRebinds | monster-main.cc:590 | the running request and spec are rebound trial after trial |
| Trials.FirstFailure | monster-main.cc:592-597 | the first trial whose successor could not be generated |
| Trials.TrialsFailed | monster-main.cc:592-597 | a generation failure reports the request as rebound up to that trial |
| Trials.FailureNamesRebound | monster-main.cc:590-597 | the failure message names the request rebound through the failing trial |
| Trials.TrialsCompleted | monster-main.cc:599-601 | when every trial succeeds, the outcome is the final running state with the sums divided |
| Trials.CompletedMeans | monster-main.cc:566-601 | the means are the sums over the thousand samples divided by 1000, truncated toward zero, so each mean has the sign of its sum |
| Trials.CompletedRanges | monster-main.cc:583-584 | with nonzero samples, the reported speed and health ranges are their least and greatest values and bound every sample |
| Trials.SpellSetsCollected | monster-main.cc:564-579 | the reported spell sets are sorted and are exactly the nonempty lists of non-zombie samples |
| Text.Strip | parse_des.py:63 | `strip` leaves no whitespace at either end and adds no characters |
| Text.StripIsSlice | parse_des.py:63 | the stripped text is a slice of the input with only whitespace before and after it |
| Text.SplitCount | parse_des.py:66 | `split` gives one more piece than there are separators |
| Text.SplitJoin | parse_des.py:66 | joining the pieces of a split with the separator gives back the string |
| Text.TruncDiv | monster-main.cc:599-601 | C's division truncates toward zero |
| DesCleanup.CollapseWhitespace | parse_des.py:39-40 | the result has no two adjacent whitespace characters, keeps the last character, and only holds characters of the input |
| DesCleanup.LastOfRunKept | parse_des.py:39-40 | a whole run of whitespace, of any length, becomes its last character |
| DesCleanup.CollapseKeepsVisible | parse_des.py:39-40 | collapsing removes only whitespace |
| DesCleanup.CollapseIdempotent | parse_des.py:39-40 | collapsing twice is collapsing once |
| DesCleanup.CleanupSpells | parse_des.py:45-46 | the `;` + escaped line feed substitution; what it keeps is stated by CleanupSpellsIsDropAfter |
| DesCleanup.CleanupSpellsIsDropAfter | parse_des.py:45-46 | position by position, exactly the line feeds that directly follow a ';' are deleted |
| DesCleanup.CleanupSpellsKeepsEarlierFeed | parse_des.py:45-46 | "a\n;\n" becomes "a\n;": a line feed after another character stays |
| DesCleanup.CleanupSpellsDropsLineFeeds | parse_des.py:45-46 | the characters other than line feeds are kept in order, and as many line feeds go as there are ';' + line feed pairs |
| DesCleanup.CleanupLines | parse_des.py:49 | the backslash-newline deletion; what it keeps is stated by CleanupLinesIsDropPairs |
| DesCleanup.CleanupLinesIsDropPairs | parse_des.py:49 | position by position, exactly the characters of backslash-newline pairs are deleted |
| DesCleanup.CleanupLinesKeepsLoneFeed | parse_des.py:49 | "\\a\n\\\n" becomes "\\a\n": a line feed after another character stays |
| DesCleanup.CleanupLinesDropsPairs | parse_des.py:49 | the characters other than backslashes and line feeds are kept in order, and two characters go per backslash-newline pair |
| DesCleanup.SpellsBeforeLines | parse_des.py:148-149 | the order matters: cleaning lines first would let a continued line's ';' swallow the next line feed |
| DesCleanup.LastPieceSuffix | parse_des.py:66 | `split("=")[-1]` is the suffix after the last '=', or the whole string when there is none |
| DesCleanup.CleanupMonsLine | parse_des.py:57-72 | the cleaned line has no surrounding whitespace and no adjacent whitespace, and only holds characters of the line |
| DesCleanup.StripKeepsVisible | parse_des.py:63 | stripping removes only whitespace |
| DesCleanup.CleanupMonsLineVisible | parse_des.py:57-72 | outside KMONS lines only whitespace changes: the visible text is that of the stripped line with every "MONS:" deleted |
| DesCleanup.KmonsKeepsLastAssignment | parse_des.py:65-66 | a KMONS line is cleaned as the text after its last '=', and no '=' survives |
| DesCleanup.KmonsWithoutAssignment | parse_des.py:65-66 | a KMONS line without '=' is kept whole, prefix included |
| DesParse.SplitTwice | parse_des.py:82-89 | splitting on '/' and then each piece on ',' is splitting on both at once |
| DesParse.ParsedMonsLine | parse_des.py:74-91 | the entries of one MONS line; stated by ParsedMonsLineShape and SplitTwice |
| DesParse.ParsedMonsLineShape | parse_des.py:74-91 | one cleaned entry per '/'- or ','-separated piece, in order, none holding a separator |
| DesParse.ParseMonsLine | parse_des.py:74-91 | the loop returns exactly the parsed entries |
| DesParse.Named | parse_des.py:93-108 | `cull_unnamed_monsters`; stated by NamedCounts, NamedAppend and NamedAllNamed |
| DesParse.NamedCounts | parse_des.py:93-108 | an entry keeps its multiplicity when it contains "name" and disappears otherwise |
| DesParse.NamedAppend | parse_des.py:93-108 | culling distributes over concatenation, so order is kept |
| DesParse.NamedAllNamed | parse_des.py:93-108 | a list of named entries is kept whole |
| DesParse.CullUnnamedMonsters | parse_des.py:93-108 | the loop returns exactly the culled entries |
| DesGenerate.CandidatesIff | parse_des.py:125-131 | a candidate comes from a walked directory that is not ignored, and every file of such a directory is a candidate |
| DesGenerate.ChosenAreWanted | parse_des.py:131-139 | every processed file was offered, is a .des file and is not test.des |
| DesGenerate.ChosenDistinct | parse_des.py:132-133 | no file name is processed twice |
| DesGenerate.ChosenComplete | parse_des.py:131-154 | every offered .des file other than test.des is processed under its name |
| DesGenerate.Generated | parse_des.py:110-159 | what `generate_monster_lines` returns; stated by ChosenAreWanted, ChosenDistinct, ChosenComplete and GeneratedEntries |
| DesGenerate.GeneratedEntries | parse_des.py:151-159 | no generated entry holds '/' or ',', and after culling every entry is named |
| DesGenerate.ParseFile | parse_des.py:151-152 | the specs of every matched line are appended in order |
| DesGenerate.VisitFile | parse_des.py:132-154 | one file name is processed exactly when it passes the filter, and `done` records it |
| DesGenerate.VisitDir | parse_des.py:131-154 | the inner loop processes a directory's files in order |
| DesGenerate.GenerateMonsterLines | parse_des.py:110-159 | the returned list is the specs of the chosen files, culled when asked |
| DesGenerate.PublishMonstersAsCpp | parse_des.py:161-184 | the chunks written are the fixed header, the reserve line, the push_back lines and the footer |
| DesGenerate.CppChunks | parse_des.py:161-184 | the chunks `publish_monsters_as_cpp` writes; stated by CppChunksShape, ReserveReadsBack and PushLineLiteral |
| DesGenerate.CppChunksShape | parse_des.py:172-184 | reserve comes seventh, then one push_back per spec in order, then the closing brace |
| DesGenerate.ReserveReadsBack | parse_des.py:178 | the reserve count reads back as the list length |
| DesGenerate.PushLineLiteral | parse_des.py:180-181 | a push_back literal is the spec with '"' turned into "'", so it has no double quote |

## Left out

- Engine calls are inputs, not models: `mons_list::add_mons`, `get_monster`, `get_vault_monster`, `mon_special_ability`, `mons_spells`, `spell_title`, `exper_value`, `get_mons_resists`, `mons_attack_spec`, `stepdown_value`, `monster::name`, `mi_create_monster` and the monster data tables. Their bodies are not part of this model.
- Randomness is not modelled. The thousand trials and the fifty ability tries are given as sequences of samples. The RNG and message scope guards are left out.
- `printf`, `isatty` and `element_colour` are left out. `colour` takes a terminal flag, and element colours are not modelled.
- The attack-flavour `switch` (monster-main.cc:682-818) is modelled only in its cold, electricity and fire damage ranges and the `damage_flavour` text. Its fixed labels, such as "(reach)" and the acid "7d3", are lookups into engine tables and are left out.
- The overall layout of the report line (name, symbol, HD, AC/EV, XP print) is not modelled as one string. Its fragments are modelled.
- The first `mi_create_monster` check after resolution (monster-main.cc:556-560) is not modelled; engine creation is an input.
- The `if (i == ntrials) break;` inside the trial loop can never fire and is not modelled.
- Trials.CompletedMeans: stated over unbounded integers, so the `long`/`int` sums do not wrap. A thousand samples of realistic XP, AC and EV stay far from overflow.
- Trials.CompletedRanges: requires nonzero speeds and hit points, because `set_min_max` reads 0 as unset (Trials.ZeroSampleForgotten).
- The `FIND_MONS_LINES` regular expression of parse_des.py is a parameter (`findMons`). It is not a regex engine. File reading (`read`) and `os.walk` (the `walk` sequence) are inputs too.
- Verbose printing and both command-line `main`s are left out. So are the Lua, environment and global stubs of monster-main.cc.
- Dice.SpellDamageEmptyIff: the damage of an orb of destruction takes its power as an input, because `stepdown_value` is an engine function.
- Fragments.ChunksShownIff: the chunk colours and names are one `ChunkKind` function over the corpse effects. The engine's enumeration of effects is reduced to the cases the `switch` names, plus one for all others.

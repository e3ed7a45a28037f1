# Fultimator NPC editor and equipment card: a Dafny model

Fultimator is a browser editor for tabletop-RPG NPC sheets stored in a remote document
database. This project models the three pieces of it that are logic rather than layout:

- **The NPC edit screen** (`src/routes/npc-edit/npc-edit.js`). The screen keeps a draft copy
  of the live NPC document (`npcTemp`) and a dirty flag (`isUpdated`). It checks whether the
  NPC may be published, reporting the first rule that fails. It builds the documents that
  Save, Ctrl+S, Publish, Unpublish and Copy write to the store. It decides which controls a
  signed-in user sees. Module `NpcEdit` holds the gate (`CanPublish`), the record builders,
  the control gating (`Render`) and the class `EditSession`, whose methods change the draft
  and the flag the way the React setters do. Store writes are the methods' return values.
  The current time is a parameter.
- **The publish search index** (`searchString` in `publish`). This is
  `name.replace(/[\W_]+/g, " ").toLowerCase().split(" ")`. Module `SearchString` models the
  scanning replacement, ASCII lower-casing and `split`. It proves the replacement equal to
  a reference definition ("turn each non-alphanumeric character into a space, then squeeze
  runs of spaces"). It proves that `split` and `join` are inverses, and it proves the shape
  of the tokens.
- **The markdown toolbar splice** (`handleFormat` in
  `src/components/common/CustomTextarea.tsx`). Module `CustomTextarea` returns the text passed
  to `onChange` and the range passed to `setSelectionRange`, with JavaScript's `substring`
  clamping.
- **The armor/shield card** (`src/routes/equip/ArmorShield/Pretty.js`). Module `ArmorPretty`
  models the Defense and M. Defense cells, the quality line and the exported file name.
  Decoding functions read each cell back to the bonus it shows.

Module `Text` holds ASCII character classes, lower-casing and decimal rendering of integers,
with a round trip through a decimal parser.

The model follows the code, including where it behaves in ways a reader of the screen might not expect:

- Of the two save paths, only the Save button clears the dirty flag. Ctrl+S writes the same draft and leaves the
  flag set.
- A remote refresh replaces the draft but does not touch the flag. The flag therefore means
  "edited since the last Save/Publish/Unpublish", not "differs from the stored document".
- The JSON export on the edit screen is handed the remote document (line 295), not the
  draft.
- The search tokens are not all words: the first or the last token is empty when the name
  starts or ends with a non-alphanumeric character.
- A failed copy is only logged, not reported to the user.

## Model

| member | source | states |
|---|---|---|
| `NpcEdit.CanPublish` | src/routes/npc-edit/npc-edit.js:140-196 | the check is disabled exactly when it carries a message; the message is the first failing rule of the reference order name, description, traits, createdBy, language, attacks; enabled iff the five texts are non-empty and weaponattacks or attacks is non-empty |
| `NpcEdit.FirstFailing` | src/routes/npc-edit/npc-edit.js:140-196 | reference gate: None exactly when every rule passes, otherwise a rule that fails with every earlier rule passing |
| `NpcEdit.CanPublishRuleOrder` | src/routes/npc-edit/npc-edit.js:140-196 | reason k is reported iff rule k fails and all earlier rules hold |
| `NpcEdit.PublishedRecord` | src/routes/npc-edit/npc-edit.js:199-209 | the publish write is the draft with published true, publishedAt the given time and searchString the name's tokens; every other field unchanged; the gate's verdict is unchanged |
| `NpcEdit.UnpublishedRecord` | src/routes/npc-edit/npc-edit.js:213-219 | the unpublish write changes only published (to false); searchString and publishedAt keep their values |
| `NpcEdit.UnpublishKeepsIndex` | src/routes/npc-edit/npc-edit.js:199-219 | unpublishing a published record keeps the search index and time stamp that publishing set |
| `NpcEdit.RepublishOnlyRestamps` | src/routes/npc-edit/npc-edit.js:199-219 | publish, unpublish, publish again gives the same record as one publish at the later time |
| `NpcEdit.Render` | src/routes/npc-edit/npc-edit.js:295-606 | nothing renders without a draft; copy only for a signed-in non-owner of the remote record; owner panel, publish and unpublish only for the owner, never together with copy; the publish button shows iff owner and draft unpublished, and is then disabled exactly when the gate is; the criteria message is the gate's message for the owner (present iff the gate is disabled) and absent otherwise; save shows iff dirty; export gets the remote record |
| `NpcEdit.EditSession.constructor` | src/routes/npc-edit/npc-edit.js:72-75 | no snapshot, no draft, not dirty |
| `NpcEdit.EditSession.RemoteChanged` | src/routes/npc-edit/npc-edit.js:83-86 | a snapshot replaces the draft (unsaved edits are lost) and leaves the dirty flag as it was |
| `NpcEdit.EditSession.UpdateNpc` | src/routes/npc-edit/npc-edit.js:78-81 | an edit replaces the draft wholesale and sets the dirty flag |
| `NpcEdit.EditSession.HandleCtrlS` | src/routes/npc-edit/npc-edit.js:89-97 | fires exactly on ctrlKey with key "s"; then writes the draft unchanged; the dirty flag is not cleared |
| `NpcEdit.EditSession.Save` | src/routes/npc-edit/npc-edit.js:593-596 | clears the dirty flag and writes the draft unchanged |
| `NpcEdit.EditSession.Publish` | src/routes/npc-edit/npc-edit.js:199-210 | clears the dirty flag and writes PublishedRecord of the draft; the draft itself is not changed |
| `NpcEdit.EditSession.UnPublish` | src/routes/npc-edit/npc-edit.js:213-219 | clears the dirty flag and writes UnpublishedRecord of the draft |
| `NpcEdit.EditSession.CopyNpc` | src/routes/npc-edit/npc-edit.js:222-226 | the duplicate belongs to the acting user, has no id, is unpublished, and agrees with the draft on every other field |
| `NpcEdit.EditSession.View` | src/routes/npc-edit/npc-edit.js:135-137 | the screen renders iff there is a draft; the save button shows iff there is a draft and it is dirty |
| `SearchString.CollapseNonWord` | src/routes/npc-edit/npc-edit.js:205 | the replacement never lengthens the name and is empty iff the name is |
| `SearchString.CollapseIsSqueezedSpaceOut` | src/routes/npc-edit/npc-edit.js:204-205 | the global [\W_]+ replacement equals "each non-alphanumeric character to a space, then squeeze runs of spaces" |
| `SearchString.CollapseShape` | src/routes/npc-edit/npc-edit.js:204-205 | the replacement leaves only ASCII letters, digits and single spaces; it is empty iff the name is; it starts (ends) with a space iff the name starts (ends) with a non-alphanumeric character |
| `SearchString.CollapseHead` | src/routes/npc-edit/npc-edit.js:205 | the replacement is empty iff the name is; it starts with a space iff the name starts with a non-alphanumeric character, and otherwise with the name's first character |
| `SearchString.CollapseLast` | src/routes/npc-edit/npc-edit.js:205 | for a non-empty name the replacement ends with a space iff the name ends with a non-alphanumeric character |
| `SearchString.CollapseCharset` | src/routes/npc-edit/npc-edit.js:205 | the replacement holds only ASCII letters, digits and single spaces |
| `SearchString.CollapseFixesCollapsed` | src/routes/npc-edit/npc-edit.js:204-205 | a string of letters, digits and single spaces is left unchanged |
| `SearchString.CollapseIdempotent` | src/routes/npc-edit/npc-edit.js:204-205 | replacing twice is replacing once |
| `SearchString.Split` | src/routes/npc-edit/npc-edit.js:207 | split gives at least one piece, and no piece contains the separator |
| `SearchString.JoinSplit` | src/routes/npc-edit/npc-edit.js:207 | joining the pieces of a split with the separator gives the string back |
| `SearchString.SplitJoin` | src/routes/npc-edit/npc-edit.js:207 | splitting a join of separator-free pieces gives the pieces back |
| `SearchString.SplitInnerPiecesNonEmpty` | src/routes/npc-edit/npc-edit.js:207 | without two adjacent separators only the first and last pieces can be empty; the first is empty iff the string is empty or starts with the separator |
| `SearchString.SplitLastPiece` | src/routes/npc-edit/npc-edit.js:207 | the last piece is empty iff the string is empty or ends with the separator |
| `SearchString.LowerCollapsed` | src/routes/npc-edit/npc-edit.js:206 | lower-casing the replaced name keeps single spaces and leaves only a-z, 0-9 and spaces |
| `SearchString.SearchTokens` | src/routes/npc-edit/npc-edit.js:204-207 | the searchString has at least one token and no token contains a space |
| `SearchString.TokensJoin` | src/routes/npc-edit/npc-edit.js:204-207 | the tokens joined with one space are the lower-cased name with each maximal non-alphanumeric run replaced by one space |
| `SearchString.TokensAreIndexWords` | src/routes/npc-edit/npc-edit.js:204-207 | every token is over a-z and 0-9 |
| `SearchString.TokensInnerNonEmpty` | src/routes/npc-edit/npc-edit.js:204-207 | no token strictly between the first and the last is empty |
| `SearchString.TokensFirstEmpty` | src/routes/npc-edit/npc-edit.js:204-207 | the first token is empty iff the name is empty or starts with a non-alphanumeric character |
| `SearchString.TokensLastEmpty` | src/routes/npc-edit/npc-edit.js:204-207 | the last token is empty iff the name is empty or ends with a non-alphanumeric character |
| `SearchString.TokensEmptyOnlyAtEnds` | src/routes/npc-edit/npc-edit.js:204-207 | only the first and last token can be empty, each exactly when the name is empty or starts (ends) with a non-alphanumeric character |
| `Text.LowerChar` | src/routes/npc-edit/npc-edit.js:206 | an ASCII capital becomes the lower-case letter at the same alphabet position; every other character is kept; hence no ASCII capital is left, the alphanumeric class is kept and only space maps to space |
| `Text.Lower` | src/routes/npc-edit/npc-edit.js:206 | toLowerCase keeps the length and lower-cases each character in place |
| `Text.NatToString` | src/routes/equip/ArmorShield/Pretty.js:194 | a non-negative number prints as at least one digit, with a leading zero only for 0 |
| `Text.IntToString` | src/routes/equip/ArmorShield/Pretty.js:194 | a number prints with a leading minus sign iff it is negative |
| `Text.DigitsValueOfNatToString` | src/routes/equip/ArmorShield/Pretty.js:194 | the digits printed for n have the value n |
| `Text.ParseIntToString` | src/routes/equip/ArmorShield/Pretty.js:194 | printing an integer and parsing it back gives the integer |
| `Text.IntToStringInjective` | src/routes/equip/ArmorShield/Pretty.js:194 | different integers print differently |
| `CustomTextarea.Substring` | src/components/common/CustomTextarea.tsx:62 | substring of an in-order, in-range pair is the slice between them; a reversed pair is swapped |
| `CustomTextarea.HandleFormat` | src/components/common/CustomTextarea.tsx:53-81 | no text area: nothing happens; otherwise, for an in-range selection, the text is prefix + marker + selection + marker + suffix for bold/italic and prefix + suffix otherwise, and the new range is [start+2, end+2) |
| `CustomTextarea.FormatKeepsSurroundings` | src/components/common/CustomTextarea.tsx:76 | the text before and after the selection is kept; the length grows by 4 (bold) or 2 (italic), or shrinks by the selection length for other formats |
| `CustomTextarea.BoldSelectsOriginalText` | src/components/common/CustomTextarea.tsx:62-79 | for bold the new range covers exactly the originally selected text |
| `CustomTextarea.ItalicSelectionShifted` | src/components/common/CustomTextarea.tsx:69-79 | for italic the new range covers the selection minus its first character plus the closing "*" |
| `CustomTextarea.ItalicSelectionCounterexample` | src/components/common/CustomTextarea.tsx:69-79 | italicising all of "ab" gives "*ab*" with the range [2,4), which is "b*" |
| `CustomTextarea.HandleFormatIntended` | src/components/common/CustomTextarea.tsx:79 | the corrected operation writes the same text as the original |
| `CustomTextarea.IntendedSelectsOriginalText` | src/components/common/CustomTextarea.tsx:79 | with the range starting after the opening marker, bold and italic both select exactly the original text |
| `ArmorPretty.DefenseCell` | src/routes/equip/ArmorShield/Pretty.js:193-203 | Shield: "+def"; martial Armor: def; other Armor: "DEX die" when def is 0, else "DEX die +def"; any other category: empty |
| `ArmorPretty.MDefenseCell` | src/routes/equip/ArmorShield/Pretty.js:206-216 | Shield: "+mdef"; Armor: "INS die" when mdef is 0, else "INS die +mdef", with def printed in front when martial; any other category: empty |
| `ArmorPretty.DefenseCellRoundTrip` | src/routes/equip/ArmorShield/Pretty.js:193-203 | a Shield's or Armor's Defense cell reads back as its def |
| `ArmorPretty.MDefenseCellIntended` | src/routes/equip/ArmorShield/Pretty.js:211-215 | corrected M. Defense: an Armor shows only its INS die text; other categories as written |
| `ArmorPretty.MDefenseCellIntendedRoundTrip` | src/routes/equip/ArmorShield/Pretty.js:206-216 | the corrected M. Defense cell of a Shield or Armor reads back as its mdef |
| `ArmorPretty.MartialMDefensePrefixed` | src/routes/equip/ArmorShield/Pretty.js:208-215 | for martial armor the written cell is def followed by the corrected cell, and it no longer reads as an INS die bonus |
| `ArmorPretty.MartialMDefenseExample` | src/routes/equip/ArmorShield/Pretty.js:208-215 | martial armor with def 10 and mdef 0 prints "10INS die" where "INS die" is intended |
| `ArmorPretty.QualityLine` | src/routes/equip/ArmorShield/Pretty.js:230 | the line starts with "No Qualities" iff the quality is absent or empty; otherwise it is a space followed by the quality |
| `ArmorPretty.FileStem` | src/routes/equip/ArmorShield/Pretty.js:68 | same length as the name; each whitespace character becomes "_", every other character is lower-cased in place |
| `ArmorPretty.ExportFileName` | src/routes/equip/ArmorShield/Pretty.js:68 | the file name is the stem followed by ".json" |
| `ArmorPretty.FileStemShape` | src/routes/equip/ArmorShield/Pretty.js:68 | the stem has no whitespace and no ASCII capital; other characters stay in place; building the stem twice changes nothing |

## Left out

- Firestore (`setDoc`, `addDoc`, `useDocumentData`) and authentication are not modelled as services. A write is the document value a method returns. A snapshot is a call to `RemoteChanged`. The signed-in user is a parameter.
- Asynchrony is not modelled. React runs the refresh effect after the render that sees a new snapshot; the model applies the snapshot and the draft reset in one step. Failed writes, the post-copy redirect and the `.catch` logging are left out: none of them changes the screen's state.
- `Date.now()` is the parameter `now` of `Publish`.
- The translated messages from `t(...)` are the `Reason` values.
- Share to clipboard, image download, screenshots, file upload and Blob download are browser I/O. The JSON serialisation itself is out of scope too; only the file name is modelled.
- Scroll, focus and blur listeners, `showScrollTop`, focus styling, hover outlines and all layout are left out.
- Absent text fields are modelled as empty strings, absent lists as empty lists and an absent `published` as false. The screen treats each the same way. `publish` on a record with no `name` would throw, but its button is disabled then.
- NpcEdit.EditSession.HandleCtrlS: with no draft loaded, the source calls `setDoc` with `undefined`, which the store refuses; the model writes nothing.
- The `searchString` model works on Unicode scalar values, not UTF-16 code units. Both end in the same tokens, because every non-ASCII character is replaced.
- ArmorPretty.FileStem: lower-cases ASCII letters only. JavaScript's full-Unicode `toLowerCase` also changes other letters and can change the length.
- Text.IntToString: covers integers only. Armor bonuses that are fractions, or whose magnitude reaches 1e21 (printed in exponent form), are not modelled.
- CustomTextarea.Selection: positions count Unicode scalar values, while `selectionStart`, `selectionEnd` and `selectedText.length` count UTF-16 code units. The two agree except when a selection boundary splits a surrogate pair or the text before the selection holds characters outside the Basic Multilingual Plane.
- CustomTextarea.HandleFormat: the range is the one passed to `setSelectionRange`. The browser's clamping of that range against the text area's current value, and the re-render after `onChange`, are not modelled. The `focus()` call is left out.
- `src/routes/Home.tsx` and `src/components/Layout.tsx` (navigation and theme plumbing) are not part of this model. Nor is the `Export` component used on the edit screen.

## Findings

| source | as written | input that shows it | evidently intended | confidence | as-written member | corrected member |
|---|---|---|---|---|---|---|
| src/components/common/CustomTextarea.tsx:79 | the new range starts at `start + 2` for every format | italic on "ab" with selection [0,2): text "*ab*", range [2,4) selects "b*" | the range starts after the opening marker (`start + 1` for italic), so it selects "ab" | medium, not executed | `CustomTextarea.ItalicSelectionShifted`, `CustomTextarea.ItalicSelectionCounterexample` | `CustomTextarea.IntendedSelectsOriginalText` (on `CustomTextarea.HandleFormatIntended`) |
| src/routes/equip/ArmorShield/Pretty.js:208-210 | for martial armor the M. Defense cell prints `def` in front of the INS die text | martial Armor, def 10, mdef 0: "10INS die" | "INS die" (the cell depends on mdef alone, as for non-martial armor) | medium, not executed | `ArmorPretty.MartialMDefensePrefixed`, `ArmorPretty.MartialMDefenseExample` | `ArmorPretty.MDefenseCellIntendedRoundTrip` (on `ArmorPretty.MDefenseCellIntended`) |

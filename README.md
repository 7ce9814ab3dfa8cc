# Escape Room Conquest — a verified model of its mini-games

Escape Room Conquest is a set of small SDL2 (and one SFML) games written in
C++. This project models their control logic in Dafny and proves properties
of it. The screens covered are:

- a player-name line editor;
- three copies of a timed riddle game;
- two RSA unlock forms and the `mod_exp`/`decryptRSA` routines behind them;
- a circuit-path maze;
- an image switcher with fade transitions;
- the menu of the stand-alone build, with its high-score file;
- the combined game's start screen, leaderboard, scrolling world map and
  the `GameState` dispatch loop of its `main`.

Every screen is driven by a finite sequence of decoded input events
(`Events.Event`). A `Frame(ticks, mouseX, mouseY)` event marks the point
where SDL's poll queue ran empty. There the loop tail runs: the clock is
read, the timeout is tested and the loop condition is tested again. On the
SDL screens, a quit that arrives in the middle of a batch lets the rest of
the batch be handled, exactly as their nested `while (SDL_PollEvent(...))`
loops do. The SFML maze is different: `window.close()` makes `pollEvent`
report nothing more, so the rest of that batch is never handled.

Each loop has the same two parts:

- a recursive specification function over the remaining events, returning
  `Returned(value, rest)` or `Waiting` when the stream runs out first;
- an imperative method with the program's own local variables, proved to
  compute that function.

The properties are proved about the specification functions, for every
input.

Objects whose fields the program updates in place are classes:

- the map's statics (`WorldMap.World`);
- the leaderboard's entry list (`Leaderboard.Board`);
- the maze's visited grid (`Circuit.Maze`).

The high-score list is sorted in place in an array.

Source paths below are relative to the repository root.

## Model

| member | source | states |
|---|---|---|
| NameEntry.EditName | src/input.cpp:21-26 | Text appends to the name. Backspace drops the last character of a non-empty name. Every other event leaves the name alone. |
| NameEntry.BackspaceBounded | src/input.cpp:25-26 | Backspace never goes below the empty name and removes at most one character. |
| NameEntry.UntilEnterNonEmpty | src/input.cpp:14-33 | The until-Enter loop reads a prefix of the stream. A name it accepts is never empty. |
| NameEntry.ReadNameUntilEnter | src/input.cpp:14-33 | The loop over `outName` computes the until-Enter specification, so its accepted names are non-empty. |
| NameEntry.GetPlayerName | src/input.cpp:6-42 | A missing font fails before any event is read. Otherwise it runs the until-Enter loop, and a quit returns no name. |
| NameEntry.BatchedNeedsEnter | ESCAPEROOMCONQUEST/menuforgame/src/menu.cpp:115-127 | In the batched loop, without an Enter no name is ever accepted. |
| NameEntry.BatchedLeavesSuffix | ESCAPEROOMCONQUEST/menuforgame/src/menu.cpp:115-140 | The batched loop reads a prefix of the stream. |
| NameEntry.BatchedCanReturnEmpty | ESCAPEROOMCONQUEST/menuforgame/src/menu.cpp:121-124 | A Backspace after Enter in the same batch makes the batched loop return an empty name. |
| NameEntry.ReadNameBatched | ESCAPEROOMCONQUEST/menuforgame/src/menu.cpp:109-144 | The loop with its `entering` flag computes the batched specification. |
| Riddles.ElapsedMs | ESCAPEROOMCONQUEST/muliplewindow/puzzle/puzzle.cpp:142-143 | `now - start` on Uint32 ticks is the true difference, plus 2^32 when the clock wrapped. |
| Riddles.TimeUpIff | ESCAPEROOMCONQUEST/muliplewindow/puzzle/puzzle.cpp:143-144 | The seconds left reach zero exactly when 30 000 ms have elapsed. |
| Riddles.TypedChar | ESCAPEROOMCONQUEST/muliplewindow/puzzle/puzzle.cpp:123-124 | A key types a character exactly when its keycode truncated to 8 bits is printable, and it types that code. |
| Riddles.ArrowKeysTypeLetters | ESCAPEROOMCONQUEST/muliplewindow/puzzle/puzzle.cpp:123-124 | Because of the truncation, the arrow keys type 'O', 'P', 'Q' and 'R'. Space types a blank and Escape types nothing. |
| Riddles.Handle | ESCAPEROOMCONQUEST/muliplewindow/puzzle/puzzle.cpp:101-139 | The three handlers keep the play invariant and the "stops only at the end" property, and never lower the riddle index. |
| Riddles.Tail | ESCAPEROOMCONQUEST/muliplewindow/puzzle/puzzle.cpp:142-144 | The loop tail changes only `failed`. It fails a started, unsolved riddle exactly when 30 s are up. |
| Riddles.StartRule | ESCAPEROOMCONQUEST/muliplewindow/puzzle/puzzle.cpp:104-115 | A click strictly inside the monitor before the start opens riddle 0 with an empty answer and the clock at "now". |
| Riddles.ClickElsewhereIgnored | ESCAPEROOMCONQUEST/muliplewindow/puzzle/puzzle.cpp:104-108 | A click changes nothing once started, or outside the monitor. |
| Riddles.EnterRule | ESCAPEROOMCONQUEST/muliplewindow/puzzle/puzzle.cpp:120-121 | Enter solves an open riddle exactly when the input equals its answer. Otherwise nothing changes. |
| Riddles.EditRule | ESCAPEROOMCONQUEST/muliplewindow/puzzle/puzzle.cpp:118-125 | On an open riddle, Backspace pops a character and a printable key appends its character. Nothing else changes. |
| Riddles.SettledRule | ESCAPEROOMCONQUEST/muliplewindow/puzzle/puzzle.cpp:128-139 | A settled riddle ignores all keys but Space. Space opens the next riddle, or stops the loop after the last one. |
| Riddles.TypeOneKey | ESCAPEROOMCONQUEST/muliplewindow/puzzle/puzzle.cpp:122-124 | One printable key on an open riddle appends its character. |
| Riddles.TypingAppends | ESCAPEROOMCONQUEST/muliplewindow/puzzle/puzzle.cpp:118-125 | Typing a printable word key by key appends the whole word. |
| Riddles.EnterSolves | ESCAPEROOMCONQUEST/muliplewindow/puzzle/puzzle.cpp:120-121 | Enter on a riddle showing its answer solves it. |
| Riddles.AnswerSolves | ESCAPEROOMCONQUEST/muliplewindow/puzzle/puzzle.cpp:118-121 | Typing a riddle's answer on its fresh screen and pressing Enter solves it. |
| Riddles.PlayLoopInv | ESCAPEROOMCONQUEST/muliplewindow/puzzle/puzzle.cpp:100-144 | The loop reads a prefix and keeps the invariant. Without a quit it only ends after the last riddle. |
| Riddles.PollEvent | ESCAPEROOMCONQUEST/muliplewindow/puzzle/puzzle.cpp:104-139 | The handlers over the C++ locals compute `Handle`. |
| Riddles.CheckTime | ESCAPEROOMCONQUEST/muliplewindow/puzzle/puzzle.cpp:142-144 | The timeout over the locals computes `Tail`. |
| Riddles.RunRiddles | ESCAPEROOMCONQUEST/muliplewindow/puzzle/puzzle.cpp:93-144 | The riddle loop computes its specification. A quit-free run returns only once every riddle has been dealt with. |
| Riddles.PlayLoopQuitReturnsInv | project/PuzzleGame.cpp:69-113 | When a quit returns at once, any run that ends without one has gone past the last riddle. |
| Riddles.RunRiddlesQuitReturns | project/PuzzleGame.cpp:63-113 | That loop computes its specification, and a completed run has passed every riddle. |
| Riddles.DismissNeedsInput | ESCAPEROOMCONQUEST/muliplewindow/puzzle/puzzle.cpp:192-198 | The decryptor picture reads a prefix of the stream. It stays up while no quit or key (or, in PuzzleGame.cpp, click) arrives. |
| Riddles.ShowDecryptor | ESCAPEROOMCONQUEST/muliplewindow/puzzle/puzzle.cpp:192-204 | The picture loop computes `Dismiss`. |
| Riddles.PuzzleProgram | ESCAPEROOMCONQUEST/muliplewindow/puzzle/puzzle.cpp:45-198 | A font that fails to open ends the program before any event is read. Otherwise the program is the batched name screen, then the riddles, then the picture, and a quit on the name screen ends it. |
| Riddles.PuzzleReadsPrefix | ESCAPEROOMCONQUEST/muliplewindow/puzzle/puzzle.cpp:45-198 | The whole program reads only a prefix of the event stream. It ends with a riddle state only when the font opened, and that state keeps the riddle invariant. |
| Riddles.RunPuzzle | project/PuzzleGame.cpp:24-160 | A quit during the name screen or the riddles returns at once. The picture is shown only when it and its texture load. A completed run has passed every riddle. |
| Riddles.RunPuzzleReadsPrefix | project/PuzzleGame.cpp:24-160 | `runPuzzle` reads only a prefix of the stream. When it returns a riddle state rather than a quit, that state keeps the invariant and every riddle has been dealt with. |
| RiddleModule.Handle | src/PuzzleModule.cpp:103-139 | The handlers keep the round invariant and never lower the index. |
| RiddleModule.Tail | src/PuzzleModule.cpp:143-146 | The timeout fails only an open riddle whose 30 s are up, and changes nothing else. |
| RiddleModule.StartRule | src/PuzzleModule.cpp:106-111 | A click in the half-open area before the start opens riddle 0. The area's top-left corner counts and its right edge does not. |
| RiddleModule.EnterSettles | src/PuzzleModule.cpp:119-126 | Enter settles an open riddle: solved on the exact answer, failed on any other. |
| RiddleModule.EditRule | src/PuzzleModule.cpp:114-118 | Text appends to an open riddle's answer and Backspace pops a character. |
| RiddleModule.SettledRule | src/PuzzleModule.cpp:131-139 | A settled riddle ignores everything but Space. Space opens the next riddle, or ends the loop after the last one. |
| RiddleModule.AnswerSolves | src/PuzzleModule.cpp:114-122 | The answer typed in one text event followed by Enter solves the riddle. |
| RiddleModule.RoundLoopInv | src/PuzzleModule.cpp:97-192 | The loop reads a prefix and keeps the invariant. A run that ends without a quit has passed every riddle. |
| RiddleModule.PollEvent | src/PuzzleModule.cpp:104-139 | The handlers over the locals compute `Handle`. |
| RiddleModule.CheckTime | src/PuzzleModule.cpp:143-146 | The timeout over the locals computes `Tail`. |
| RiddleModule.RunRounds | src/PuzzleModule.cpp:88-192 | The riddle loop computes its specification, and a completed run has passed every riddle. |
| RiddleModule.Run | src/PuzzleModule.cpp:33-196 | Missing assets give EXIT before any event is read. A quit gives EXIT and leaving the last riddle gives MAP. Nothing else is returned. |
| Rsa.CRem | ESCAPEROOMCONQUEST/muliplewindow/rsa/rsa_decryptor.cpp:12-17 | C++ `%` has a remainder smaller than the modulus in magnitude, with the sign of the dividend. |
| Rsa.Trunc8 | ESCAPEROOMCONQUEST/muliplewindow/rsa/rsa_decryptor.cpp:27 | `static_cast<char>` keeps the value modulo 256. |
| Rsa.CRemCongruent | ESCAPEROOMCONQUEST/muliplewindow/rsa/rsa_decryptor.cpp:12 | A value and its C++ remainder differ by a multiple of the modulus. |
| Rsa.CRemMulLeft | ESCAPEROOMCONQUEST/muliplewindow/rsa/rsa_decryptor.cpp:15 | Reducing a factor before multiplying does not change the reduced product. |
| Rsa.PowCRem | ESCAPEROOMCONQUEST/muliplewindow/rsa/rsa_decryptor.cpp:12-17 | Reducing the base does not change the reduced power. |
| Rsa.StepKeepsInvariant | ESCAPEROOMCONQUEST/muliplewindow/rsa/rsa_decryptor.cpp:13-18 | One square-and-multiply step keeps `result * base^exp` congruent. |
| Rsa.ModExp | ESCAPEROOMCONQUEST/muliplewindow/rsa/rsa_decryptor.cpp:10-20 | `mod_exp` returns the C++ remainder of `base^exp` for every base (negative ones too) and every exponent. When \|mod\| ≤ 2^31, no intermediate product overflows `long long`. |
| Rsa.ModExpIsRsadp | ESCAPEROOMCONQUEST/muliplewindow/rsa/rsa_decryptor.cpp:10-20 | For c, d ≥ 0 and n > 1, `mod_exp` is the RSADP primitive c^d mod n of section 5.1.2 of RFC 8017, and lies in [0, n). |
| Rsa.ZeroExponentUnreduced | ESCAPEROOMCONQUEST/muliplewindow/rsa/rsa_decryptor.cpp:11-13 | With exponent 0, `mod_exp` returns 1 even when the modulus is 1. |
| Rsa.DecryptsToExtend | ESCAPEROOMCONQUEST/muliplewindow/rsa/rsa_decryptor.cpp:25-29 | Decrypting one more token appends its byte. |
| Rsa.Decrypt | ESCAPEROOMCONQUEST/muliplewindow/rsa/rsa_decryptor.cpp:22-31 | `decryptRSA` yields one byte per whitespace-separated token, in order, each the truncated `mod_exp` of its number. It fails exactly when some token does not start with a number `stoll` accepts. |
| RsaScreen.UnlockMessage | ESCAPEROOMCONQUEST/muliplewindow/rsa/rsa_decryptor.cpp:74-84 | The message is "Curzon is haunted" exactly for n = 2537, e = 13 and that ciphertext. It is "Invalid input" exactly when either number fails to parse, and "Access Denied" otherwise. |
| RsaScreen.UnlockAcceptsNumericPrefix | ESCAPEROOMCONQUEST/muliplewindow/rsa/rsa_decryptor.cpp:75-77 | Because `stoll` reads a numeric prefix, text after "2537" still unlocks. |
| RsaScreen.TypingEditsFocusedField | ESCAPEROOMCONQUEST/muliplewindow/rsa/rsa_decryptor.cpp:88-91 | Text appends to the focused field only. |
| RsaScreen.BackspaceEditsFocusedField | ESCAPEROOMCONQUEST/muliplewindow/rsa/rsa_decryptor.cpp:92-95 | Backspace pops the focused field only, and only when it is non-empty. |
| RsaScreen.ClickRules | ESCAPEROOMCONQUEST/muliplewindow/rsa/rsa_decryptor.cpp:71-87 | A click on Decrypt sets the message. A click strictly inside a field focuses it. Any other click changes nothing. |
| RsaScreen.StepKeepsKnownResult | ESCAPEROOMCONQUEST/muliplewindow/rsa/rsa_decryptor.cpp:69-96 | The result line only ever holds nothing or one of the three messages. |
| RsaScreen.FormLoopKnownResult | ESCAPEROOMCONQUEST/muliplewindow/rsa/rsa_decryptor.cpp:68-133 | The form loop reads a prefix and ends with a known result. |
| RsaScreen.HandleEvent | ESCAPEROOMCONQUEST/muliplewindow/rsa/rsa_decryptor.cpp:71-96 | The event chain over the C++ locals computes `Step`. |
| RsaScreen.RunForm | ESCAPEROOMCONQUEST/muliplewindow/rsa/rsa_decryptor.cpp:52-133 | The form loop computes its specification and ends with a known result. |
| RsaScreen.RunDecryptorScreen | ESCAPEROOMCONQUEST/project/RSADecryptor.cpp:30-133 | A missing background image or texture returns before any event is read. Otherwise it runs the form loop. It reads only a prefix of the stream, and the form it ends with shows one of the known result lines. |
| RsaScreen.RsaProgram | ESCAPEROOMCONQUEST/muliplewindow/rsa/rsa_decryptor.cpp:144-181 | The program is the batched name screen (quit ends it) followed by the form. |
| RsaScreen.RsaProgramReadsPrefix | ESCAPEROOMCONQUEST/muliplewindow/rsa/rsa_decryptor.cpp:144-181 | The program reads only a prefix of the stream. The form it ends with shows the empty line, the unlock text, the denial or the invalid-input message. |
| CText.DropSpaces | ESCAPEROOMCONQUEST/muliplewindow/rsa/rsa_decryptor.cpp:25 | Skipping whitespace leaves a suffix that starts with a non-blank. |
| CText.TokensAreWords | ESCAPEROOMCONQUEST/muliplewindow/rsa/rsa_decryptor.cpp:25 | `ss >> token` yields non-empty, blank-free tokens. |
| CText.TokensEmptyIff | ESCAPEROOMCONQUEST/muliplewindow/rsa/rsa_decryptor.cpp:25 | There are no tokens exactly when the text is all blanks. |
| CText.TokensAfterSpaces | ESCAPEROOMCONQUEST/muliplewindow/rsa/rsa_decryptor.cpp:25 | Whitespace before the text adds no token. |
| CText.TokensOfWord | ESCAPEROOMCONQUEST/muliplewindow/rsa/rsa_decryptor.cpp:25 | A blank-free word followed by the end or a blank is extracted whole as the next token, and extraction goes on from the blank. |
| CText.TokensJoinWords | ESCAPEROOMCONQUEST/muliplewindow/rsa/rsa_decryptor.cpp:25 | Words joined by single blanks are extracted back exactly, in order. So the tokens are the text's maximal blank-free runs. |
| CText.Stoll | ESCAPEROOMCONQUEST/muliplewindow/rsa/rsa_decryptor.cpp:26 | `stoll` yields only values in the `long long` range. |
| CText.IntToStringReads | ESCAPEROOMCONQUEST/menuforgame/src/menu.cpp:105 | A printed integer is read back as itself, and the read stops where the digits end. |
| CText.StollReadsPrinted | ESCAPEROOMCONQUEST/muliplewindow/rsa/rsa_decryptor.cpp:75-76 | `stoll` of a printed `long long`, whatever follows it, is that value. |
| CText.NatToStringValue | ESCAPEROOMCONQUEST/menuforgame/src/menu.cpp:105 | Decimal printing gives digits whose value is the number. |
| HighScores.ReadRecordsStorable | ESCAPEROOMCONQUEST/menuforgame/src/menu.cpp:43-45 | Every record read has a one-word name and an `int` score. |
| HighScores.WriteRecordsAppend | ESCAPEROOMCONQUEST/menuforgame/src/menu.cpp:104-106 | Writing two lists of records writes the first, then the second. |
| HighScores.ReadLine | ESCAPEROOMCONQUEST/menuforgame/src/menu.cpp:90 | A written `name score` line is read back as its record. |
| HighScores.RoundTrip | ESCAPEROOMCONQUEST/menuforgame/src/menu.cpp:103-106 | Writing storable records and reading the file back gives the same records. |
| HighScores.StopsAtBadRecord | ESCAPEROOMCONQUEST/menuforgame/src/menu.cpp:90 | A name followed by a non-number ends the read. Only the records before it count. |
| HighScores.BlankInNameDropsRest | ESCAPEROOMCONQUEST/menuforgame/src/menu.cpp:99-105 | A name with a blank in it, once written, hides itself and every record after it from the next read. |
| HighScores.AddPointsSpec | ESCAPEROOMCONQUEST/menuforgame/src/menu.cpp:90-96 | Every record keeps its name and place, and exactly the player's records gain the points. |
| HighScores.UpsertSpec | ESCAPEROOMCONQUEST/menuforgame/src/menu.cpp:90-101 | As above, and the player is appended with the points when absent. The player is present afterwards. |
| HighScores.ReadRecord | ESCAPEROOMCONQUEST/menuforgame/src/menu.cpp:90 | One `>> name >> score` reads the first record and strictly consumes text, or fails when there are no records. |
| HighScores.BumpRecord | ESCAPEROOMCONQUEST/menuforgame/src/menu.cpp:91-95 | The loop body adds the points exactly to the player's record and reports the hit. |
| HighScores.ReadAndBump | ESCAPEROOMCONQUEST/menuforgame/src/menu.cpp:85-101 | The read loop yields the records with the player's points added. `found` says whether the player was there. |
| HighScores.WriteAll | ESCAPEROOMCONQUEST/menuforgame/src/menu.cpp:103-106 | The write loop writes one line per record, and storable records read back unchanged. |
| HighScores.UpdateScore | ESCAPEROOMCONQUEST/menuforgame/src/menu.cpp:84-107 | The new file holds the upserted records, and reading it back gives them whenever they are storable. |
| HighScores.Swap | ESCAPEROOMCONQUEST/menuforgame/src/menu.cpp:47-49 | Two cells are exchanged in place, the others are kept, and the contents stay a permutation. |
| HighScores.InsertDown | ESCAPEROOMCONQUEST/menuforgame/src/menu.cpp:47-49 | One insertion step extends the sorted prefix by a cell. The first i + 1 cells are a permutation of what they held, the cells after i are unchanged, and the whole array is a permutation. |
| HighScores.SinkDown | ESCAPEROOMCONQUEST/menuforgame/src/menu.cpp:47-49 | The swap loop of an insertion step leaves the first i + 1 cells sorted and the array a permutation, and it moves nothing after i. |
| HighScores.SortByScore | ESCAPEROOMCONQUEST/menuforgame/src/menu.cpp:47-49 | The array ends sorted by score, highest first, as a permutation of its old contents. |
| HighScores.SortedCopy | ESCAPEROOMCONQUEST/menuforgame/src/menu.cpp:47-49 | The records come back sorted, highest first, as a permutation. |
| HighScores.LoadHighScores | ESCAPEROOMCONQUEST/menuforgame/src/menu.cpp:39-49 | The file's records, sorted highest first, as a permutation. The list is empty exactly when the file has none. |
| Menu.ButtonRect | ESCAPEROOMCONQUEST/menuforgame/src/menu.cpp:167-174 | Button i sits at (270, 300 + 70 i), with zero size until measured. |
| Menu.UnmeasuredButtonIsAPoint | ESCAPEROOMCONQUEST/menuforgame/src/menu.cpp:20-22 | Before the first frame, a button is hit only at its corner pixel. |
| Menu.ButtonEdgesHit | ESCAPEROOMCONQUEST/menuforgame/src/menu.cpp:20-22 | Both corners of a measured button hit it. A pointer left or right of it does not. |
| Menu.OnlyClicked | ESCAPEROOMCONQUEST/menuforgame/src/menu.cpp:189-190 | After a hit, exactly the hit button shows as clicked. |
| Menu.ViewLoopCloses | ESCAPEROOMCONQUEST/menuforgame/src/menu.cpp:51-57 | The high-score window reads a prefix, and while open it closes only on a quit or Escape. |
| Menu.ShowHighScores | ESCAPEROOMCONQUEST/menuforgame/src/menu.cpp:34-82 | The window shows the file's records, highest score first, as a permutation, then runs its loop. |
| Menu.AwardOnlyWithName | ESCAPEROOMCONQUEST/menuforgame/src/menu.cpp:191-196 | New Game writes nothing without a name. With one, the file read back has the player's records raised by 10, or the player appended with 10. |
| Menu.ClickOne | ESCAPEROOMCONQUEST/menuforgame/src/menu.cpp:188-202 | One button's step reads a prefix of the stream. |
| Menu.ClickOneSpec | ESCAPEROOMCONQUEST/menuforgame/src/menu.cpp:188-202 | Button i's step keeps the pointer. Only Exit under the pointer clears `running`, and only New Game under it changes the file. The clicked flags follow the hit. |
| Menu.ClickButtonsSpec | ESCAPEROOMCONQUEST/menuforgame/src/menu.cpp:187-203 | The button loop clears `running` exactly when Exit is hit, and changes the file only when New Game is hit. |
| Menu.ClickButtonsClickedOk | ESCAPEROOMCONQUEST/menuforgame/src/menu.cpp:187-203 | At most one button ever shows as clicked. |
| Menu.ClickButtonsClickedHit | ESCAPEROOMCONQUEST/menuforgame/src/menu.cpp:187-203 | The clicked flags change only when some button is under the pointer. |
| Menu.MenuLoopLeavesSuffix | ESCAPEROOMCONQUEST/menuforgame/src/menu.cpp:179-228 | The menu reads a prefix of the stream. |
| Menu.MenuLoopSpec | ESCAPEROOMCONQUEST/menuforgame/src/menu.cpp:179-228 | The menu returns only with `running` down, and with at most one button clicked. |
| Menu.QuitEndsMenu | ESCAPEROOMCONQUEST/menuforgame/src/menu.cpp:184-185 | A quit ends the menu at the end of its batch. |
| Menu.PressButton | ESCAPEROOMCONQUEST/menuforgame/src/menu.cpp:188-202 | One pass of the button loop computes `ClickOne`. |
| Menu.PressButtons | ESCAPEROOMCONQUEST/menuforgame/src/menu.cpp:187-203 | The button loop computes `ClickButtons`. |
| Menu.RunMenu | ESCAPEROOMCONQUEST/menuforgame/src/menu.cpp:176-228 | The menu loop computes its specification. It returns only with `running` down and at most one button clicked. |
| Menu.MenuProgram | ESCAPEROOMCONQUEST/menuforgame/src/menu.cpp:159-228 | When either font fails to open, the program ends before any event is read. Otherwise it is the menu loop, which reads a prefix and returns only with `running` down and at most one button clicked. |
| Leaderboard.LineEndNoNewline | src/Leaderboard.cpp:15 | A line ends at the first newline. |
| Leaderboard.LinesJoin | src/Leaderboard.cpp:15 | Splitting newline-joined lines gives those lines back. |
| Leaderboard.LinesHaveNoNewline | src/Leaderboard.cpp:15 | No line holds a newline. |
| Leaderboard.CommaAtFirst | src/Leaderboard.cpp:18 | The name ends at the first comma. |
| Leaderboard.ParseLineSpec | src/Leaderboard.cpp:16-19 | A line gives an entry exactly when a comma is followed by at least one character. The entry is the comma-free name and the non-empty rest, and together they rebuild the line. |
| Leaderboard.ParseLineOf | src/Leaderboard.cpp:16-19 | `name,time` with a comma-free name and a non-empty time parses to that entry. |
| Leaderboard.CollectAtMostOnePerLine | src/Leaderboard.cpp:15-21 | Loading gives at most one entry per line. |
| Leaderboard.CollectAppend | src/Leaderboard.cpp:15-21 | Loading two runs of lines appends their entries. |
| Leaderboard.CollectFromLines | src/Leaderboard.cpp:15-21 | Every entry comes from some line of the file. |
| Leaderboard.Board.constructor | src/Leaderboard.cpp:9 | The entry list starts empty. |
| Leaderboard.Board.LoadFromFile | src/Leaderboard.cpp:11-22 | The list is cleared and then holds the parsed lines' entries, in file order. |
| Leaderboard.ScreenLoopSpec | src/Leaderboard.cpp:29-62 | The screen reads a prefix. It returns only MAP or EXIT, and only MAP without a quit. Without Escape or a Back click it returns only EXIT. |
| Leaderboard.Run | src/Leaderboard.cpp:24-66 | The screen loop computes its specification and returns MAP or EXIT. |
| InterfaceModule.HoverUnique | src/InterfaceModule.cpp:28-33 | No two buttons are hovered at once. |
| InterfaceModule.FirstHovered | src/InterfaceModule.cpp:59-60 | The first hovered button from i on, or none. |
| InterfaceModule.ChooseSpec | src/InterfaceModule.cpp:61-76 | The next state is MAP exactly after a named New Game or Map, or when it already was. Exit gives EXIT. Leaderboard and an unnamed New Game keep the state. |
| InterfaceModule.PressSpec | src/InterfaceModule.cpp:59-78 | Acting on a button ends the loop and keeps the pointer. New Game leads to MAP exactly when a name is given, and without a font it keeps the state. Leaderboard keeps it. |
| InterfaceModule.LeftClick | src/InterfaceModule.cpp:58-80 | A left click reads a prefix of the stream. |
| InterfaceModule.InterfaceLoopSpec | src/InterfaceModule.cpp:45-98 | The start screen reads a prefix and returns only MAP or EXIT. |
| InterfaceModule.QuitChoosesExit | src/InterfaceModule.cpp:54-57 | A quit returns EXIT at the end of its batch. |
| InterfaceModule.MissedClickIgnored | src/InterfaceModule.cpp:58-60 | A click on no button changes nothing. |
| InterfaceModule.PressButton | src/InterfaceModule.cpp:61-78 | The button action computes `Press`. The leaderboard list is either kept or reloaded from its file. |
| InterfaceModule.Click | src/InterfaceModule.cpp:58-80 | The button loop over the hover flags computes `LeftClick`. |
| InterfaceModule.Run | src/InterfaceModule.cpp:37-101 | The start screen computes its specification and returns MAP or EXIT. The leaderboard list is kept or reloaded. |
| WorldMap.StartIsClear | src/MapModule.cpp:15-19 | The player starts clear of every obstacle. |
| WorldMap.Delta | src/MapModule.cpp:60-65 | Only the four arrow keys move the player. |
| WorldMap.MoveSpec | src/MapModule.cpp:59-65 | A move keeps the sprite's size. It changes nothing for other keys or when blocked, and otherwise moves exactly 10 pixels along one axis. A clear player stays clear. |
| WorldMap.Half | src/MapModule.cpp:37-38 | `w/2` truncates toward zero. |
| WorldMap.CameraSpec | src/MapModule.cpp:36-41 | The camera keeps its size and stays at x, y ≥ 0 and inside the world when it fits. When unclamped, it is centred on the player. |
| WorldMap.CameraIdempotent | src/MapModule.cpp:36-41 | Updating the camera twice is the same as once. |
| WorldMap.MapLoop | src/MapModule.cpp:56-77 | The map loop reads a prefix of the stream. |
| WorldMap.MapRun | src/MapModule.cpp:52-79 | `MapModule::run` over values: without its media, EXIT before any event is read. Otherwise it waits exactly while the map loop waits, and it returns only EXIT. It reads a prefix of the stream. |
| WorldMap.MapLoopSpec | src/MapModule.cpp:56-77 | On return, the player keeps its size and stays clear, and the camera is settled and within bounds. Without a quit the loop never returns. |
| WorldMap.Unclicked | src/MapModule.cpp:67-72 | Removing clicks shortens the stream. |
| WorldMap.ClicksIgnored | src/MapModule.cpp:67-72 | Mouse clicks change neither when the map returns nor what it returns. |
| WorldMap.World.constructor | src/MapModule.cpp:12-19 | The statics start at their initial player, camera and world size, with no media loaded. |
| WorldMap.World.InitMedia | src/MapModule.cpp:21-27 | Loaded media are kept. Otherwise both textures are loaded and the world takes the background's size. It succeeds exactly when both load. |
| WorldMap.World.KeyPress | src/MapModule.cpp:59-65 | A key press moves the player as `Move` says and changes nothing else. |
| WorldMap.World.UpdateCamera | src/MapModule.cpp:36-41 | The camera becomes `CameraFor` the player, and nothing else changes. |
| WorldMap.World.Handle | src/MapModule.cpp:57-74 | One event updates player and camera as `Step` says and keeps the invariant. |
| WorldMap.World.Run | src/MapModule.cpp:52-79 | The load flags become the textures' success unless both were already loaded, and the world takes the background's size. A media failure gives EXIT before any event is read and leaves the player and camera alone. Otherwise it computes `MapRun`, i.e. the map loop from the current statics, and returns EXIT. |
| Session.Rank | src/main.cpp:61-78 | Only EXIT has rank 0. |
| Session.ChainIsShort | src/main.cpp:61-78 | A chain of dispatched states is at most one longer than its first state's rank, and EXIT can only be its last state. |
| Session.SessionIsShort | src/main.cpp:60-79 | A session that starts at INTERFACE sees at most three states. |
| Session.Dispatch | src/main.cpp:62-78 | The switch runs the start screen, or the map (`MapRun`, with the media loaded when it already was or when both textures load), and any other state gives EXIT. The state returned always follows the one dispatched. |
| Session.FirstMap | src/MapModule.cpp:52-79 | The map on statics as first created reads a prefix and returns only EXIT, at once when a texture fails. |
| Session.SessionRun | src/main.cpp:60-79 | A whole session reads a prefix of the stream and, when it returns, lists INTERFACE, at most one more state, then EXIT, each following the one before. |
| Session.Screen | src/main.cpp:62-78 | The screen a state names reads a prefix and returns a state that follows it. |
| Session.ContinueIsSession | src/main.cpp:60-79 | The state loop started at INTERFACE computes exactly `SessionRun`. |
| Session.SessionRunSteps | src/main.cpp:60-79 | A session waits while the start screen waits, its second state is the screen's choice, and EXIT from the screen ends it with what the screen left of the stream. |
| Session.Play | src/main.cpp:60-79 | The state variable runs INTERFACE, possibly MAP, then EXIT. The whole run equals `SessionRun`: after MAP it waits exactly when the first map run waits, and it returns `[INTERFACE, MAP, EXIT]` with what that run leaves of the stream. |
| Scenes.FadeTransition | muliplewindow/multiple/multi_scene.cpp:11-25 | The fade draws 18 alphas, from 255 down to 0 in steps of 15, all within [0, 255]. |
| Scenes.SelectSpec | muliplewindow/multiple/multi_scene.cpp:75-80 | Key k selects scene k-1 when that many are loaded, and otherwise the current one. The selection stays among the loaded scenes. |
| Scenes.NewScene | muliplewindow/multiple/multi_scene.cpp:75-80 | The sequence of `if`s computes `Select`. |
| Scenes.SceneLoop | muliplewindow/multiple/multi_scene.cpp:69-93 | The loop reads a prefix of the stream. |
| Scenes.SceneLoopSpec | muliplewindow/multiple/multi_scene.cpp:69-93 | The current scene is always loaded, and every fade goes to a scene other than the one before it. Without a quit the loop runs on. |
| Scenes.LoadScenes | muliplewindow/multiple/multi_scene.cpp:55-63 | Loading succeeds exactly when every image loads, and yields the five scenes in order. |
| Scenes.Run | muliplewindow/multiple/multi_scene.cpp:47-93 | A failed load ends the program before any event is read. Otherwise it runs the scene loop from the first scene, and every fade goes to a new loaded scene. |
| Circuit.PathCellsDistinct | muliplewindow/circuitpattern/main1.cpp:19-21 | No cell occurs twice on the path. |
| Circuit.ValidStepUnique | muliplewindow/circuitpattern/main1.cpp:23-25 | Each step is valid for exactly one cell, which lies on the grid. |
| Circuit.PrefixStep | muliplewindow/circuitpattern/main1.cpp:127-130 | A correct click adds a cell that was not visited before. |
| Circuit.CDiv | muliplewindow/circuitpattern/main1.cpp:123-124 | Pixel-to-tile division truncates toward zero, so a pointer just left of or above the window maps to tile 0. |
| Circuit.ClickGame | muliplewindow/circuitpattern/main1.cpp:121-141 | A press keeps the game invariant and never undoes a win or a loss. It advances the cursor by one exactly when the game is on and the tile is the next cell of the path. |
| Circuit.TickGame | muliplewindow/circuitpattern/main1.cpp:112-115 | The head of the frame loop loses exactly when 60 s are up and the game is not won. It keeps the cursor and the win. |
| Circuit.MazeLoopInv | muliplewindow/circuitpattern/main1.cpp:106-159 | The window loop reads a prefix, keeps the invariant, never lowers the cursor and never undoes a win or a loss. |
| Circuit.ClosedIgnoresInput | muliplewindow/circuitpattern/main1.cpp:117-119 | After `window.close()` no event changes the game. The loop returns it unchanged at the next frame, and waits exactly when no frame comes. |
| Circuit.ClickAfterCloseIgnored | muliplewindow/circuitpattern/main1.cpp:117-141 | A wrong click after the close in the same batch is never polled, so the game ends with one step done, neither won nor lost. |
| Circuit.ClickBeforeCloseCounts | muliplewindow/circuitpattern/main1.cpp:117-141 | The same wrong click before the close is polled and loses. |
| Circuit.Maze.constructor | muliplewindow/circuitpattern/main1.cpp:90-91 | Nothing is visited, the cursor is at 0, and the game is neither won nor lost. |
| Circuit.Maze.Advance | muliplewindow/circuitpattern/main1.cpp:127-134 | A correct click marks its tile and advances the cursor. The tenth correct click wins. |
| Circuit.Maze.Click | muliplewindow/circuitpattern/main1.cpp:121-141 | A finished game or an off-grid click changes nothing. A correct click advances. Any other grid click loses. The visited tiles are always exactly the cells clicked so far. |
| Circuit.Maze.Tick | muliplewindow/circuitpattern/main1.cpp:112-115 | The game is lost once 60 s are up and it is not won; the step equals `TickGame`. |
| Circuit.Maze.Run | muliplewindow/circuitpattern/main1.cpp:106-159 | The window loop computes `MazeLoop` from the current game and reports its outcome on close. It keeps the invariant and never lowers the cursor or undoes a win or a loss. |
| Circuit.CircuitProgram | muliplewindow/circuitpattern/main1.cpp:27-159 | A font or background that fails to load ends the program before any event is read. Otherwise a fresh game runs the window loop and reports whether it was won and lost. |
| Circuit.LabelCellAsWritten | muliplewindow/circuitpattern/main1.cpp:75-80 | As written, each label is drawn at the transposed cell. |
| Circuit.LabelsMisleadAsWritten | muliplewindow/circuitpattern/main1.cpp:69-80 | As written, the "R" label is not on the second step of the path. |
| Circuit.FollowLabelsAsWritten | muliplewindow/circuitpattern/main1.cpp:121-139 | As written, clicking "S" and then "R" loses the game after one step. |
| Circuit.LabelCell | muliplewindow/circuitpattern/main1.cpp:75-80 | Corrected: each label is drawn at its cell, read row-first as the click test does. |
| Circuit.LabelsSpellPath | muliplewindow/circuitpattern/main1.cpp:69-80 | Corrected: the k-th label is exactly the k-th valid step. |
| Circuit.FollowLabels | muliplewindow/circuitpattern/main1.cpp:121-139 | Corrected: clicking the labelled tiles in order wins. |

## Left out

- Rendering, fonts, audio, window creation and `SDL_Delay` are left out. Where a font or image load failure changes control flow, its success is a boolean parameter: the map's textures, the puzzle's assets and font, the RSA background, the scene images, the start-screen font, the menu's two fonts, and the maze's font and background.
- A failure of `SDL_Init`, `TTF_Init` or `IMG_Init` ends each stand-alone program before anything else runs; these checks are not modelled.
- Text sizes come from the font. The menu buttons' rendered sizes are a parameter.
- The pointer position read by `SDL_GetMouseState` is the position carried by the most recent `Frame`, or by the click itself. The position at the start of the start screen is a parameter.
- Circuit.Maze.Click: the maze reads `sf::Mouse::getPosition` rather than the event's coordinates; the model uses the press event's own coordinates.
- NameEntry.EditName: text is modelled as a sequence of characters, so Backspace after non-ASCII `SDL_TEXTINPUT` text removes a whole character, where `std::string::pop_back` on the UTF-8 bytes removes one byte. The menu's name and the puzzles' names use this editor too.
- RsaScreen.BackspaceEditsFocusedField: the same character-for-byte difference applies to the three RSA fields.
- RiddleModule.EditRule: the same character-for-byte difference applies to the typed answer.
- The RSA form's background animation (`sin` on a float clock) is left out. So are the leaderboard's `std::stof` time conversion and the exception it can throw: times are kept as text.
- `std::sort` leaves the order of equal scores unspecified. The model proves sortedness and permutation only.
- The map's click test launches nothing in the source, so clicks are proved to have no effect. `initMedia` loading a second copy of a texture after a partial failure (a leak) is not modelled.
- The shooters (`deadline_invaders.cpp`, `SpaceShooter.cpp`), project/main.cpp, the dual projection, the monster game, the circuit solver and the character movement demo are not part of this model.
- HighScores.AddPoints: scores are unbounded integers. In menu.cpp:92, `score += points` is `int` arithmetic, so a stored score within `points` of `INT_MAX` overflows, which is undefined behaviour. The model (`HighScores.Bump`) writes the exact sum instead, and the next read then rejects that record as not storable.
- Rsa.ModExp: requires a non-zero modulus, and so does `Rsa.Decrypt`. With a modulus of 0 the source's `base %= mod` divides by zero, which is undefined behaviour; the model does not describe that case.
- `Rsa.Decrypt`: the exception `std::stoll` throws on a bad token is modelled as `None`; the source does not catch it.

## Findings

| source | as written | input that shows it | evidently intended | confidence | as-written member | corrected member |
|---|---|---|---|---|---|---|
| muliplewindow/circuitpattern/main1.cpp:75-80 | Labels are placed at `grid[c.y][c.x]`, but the click test compares `validPath[i]` with `{row, col}`. So the drawn circuit is the transpose of the path the game accepts. | Click the centre of the "S" tile, then of the "R" tile (drawn at row 1, column 0): the second click loses. | Draw each label at the cell the click test expects, so that following the labels wins. | high, not executed | Circuit.FollowLabelsAsWritten | Circuit.FollowLabels |

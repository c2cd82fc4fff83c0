# OpenCLI: a verified model of the command shell

OpenCLI is a Cisco-style command shell behind telnet. This project models its working parts in Dafny
and proves what they guarantee:

- the line editor and its incremental redisplay, key by key and over whole calls of `readline`
  (`LineBuffers`, `Zippers`, `Displays`, `Redisplay`, `Terminal`, `Browsers`, `Histories`, `Editing`,
  `Keys`, `Editors`);
- the telnet decoder and its buffered reader (`Telnet`, `Readers`);
- the pager (`Paging`, `Outputs`);
- the generated scanner over its compressed tables, against the rules it was generated from (`Tokens`,
  `ScanTables`, `Scanners`);
- the command tree in linked lists, the lookup, completion by Tab, and what happens between two calls
  of `readline` (`Lists`, `Menus`, `Commands`, `CommandLists`, `Registrations`,
  `Completion`, `Sessions`, `Logs`, `Shells`);
- the timer queue under wrap-around (`Timers`, `TimerQueues`).

`Limits` and `Sequences` hold the buffer sizes and two facts on sequences that several modules use.

Where the program changes buffers, fields and links in place, the model is a class whose methods do the
same on arrays and nodes. Each method is proved to compute a function of a plain module beside it, and
the main theorems are lemmas about those functions: they hold for all lines, keys, byte streams, trees,
replies and event sequences.

The remote screen is a row of cells without right margin, and a cursor. A backspace moves left, BEL does
nothing, a printable character overwrites and moves right, carriage return goes to column 0, and line
feed starts a blank row.

## What the proofs brought out

- `rl_update` is correct exactly when the two lines differ in length or agree from the new cursor on.
  It is not correct for every pair of lines: of "ab" changed to "ac" with the cursor at the start nothing
  is repainted. Every editing operation stays within that domain, so the screen is right after every key
  of a session (`Redisplay.UpdateFromShownIff`, `Editing.ScreenFollowsEveryRun`,
  `Sessions.SessionIsShown`).
- The bytes of one update never exceed 3 * 127, and that bound is reached (`Redisplay.UpdateLength`,
  `Redisplay.UpdateBoundIsTight`).
- What each key does is stated on its code (`Keys`), and what Return leaves in the histories over whole sessions
  (`Logs`): each of the two holds the last ten lines entered in its own mode.
- A control character put into the line by quoting is the only way to lose the screen: over any keys the
  screen follows after every pass iff no key inserts one, and quoting one into a full line does no harm
  (`Editing.PaintShowsIff`, `Editing.ScreenFollowsIff`).
- A doubled 255 in plain data is delivered once, but the telnet state stays behind IAC and the byte after
  it is lost, whatever plain byte it is; a two-byte command and an option that is a command code have the
  same effect (`Telnet.ItemDeliversIff`, `Telnet.StreamDeliversIff`).
- The pager compares the line count with the window height for equality. In windows of two lines or more
  the count cannot pass the limit, because the size is only read where the count is reset
  (`Paging.UsesKeepLimitAhead`). A window of one line is never asked. A window of no lines can be asked
  exactly while the count is below its height; RETURN puts the count below it, so there the user who
  answers RETURN is asked again one line later (`Paging.SmallWindowNeverAsksIff`,
  `Paging.ReturnAsksAgain`).
- A recalled history line is used as a format. It comes back as it was iff it holds no percent sign; a
  doubled one comes back as one (`Histories.RecalledCopiesIff`, `Editing.BrowsingShowsEntries`).
- Tab does not check for room. It keeps the line within its 127 characters iff the match fits behind the
  last space; "show", 109 spaces and "ru" leads past the buffer (`Sessions.AfterTabIsLineText`,
  `Sessions.TabCanOverflow`).
- Beyond nine words the lookup does not see the last word, yet Tab prints the match of the ninth over it
  (`Completion.CompletionBeyondNine`).

## Model

| member | source | states |
|---|---|---|
| Redisplay.UpdateEffect | vty.c:490-542 | On any screen whose cursor is where the editor believes it is, the bytes of an update change exactly the painted cells, put the cursor at its new column, and never move it left of the input's first column |
| Redisplay.UpdateCorrectIff | vty.c:503-542 | For any screen and any remembered line, stale or not: the update yields the new line iff every cell it leaves alone already shows what the new line needs there; columns left of the input keep their characters |
| Redisplay.UpdateFromShownIff | vty.c:503-542 | If the screen shows the remembered line and cursor, replaying the update shows the new line, blanks behind it and the new cursor, iff the lengths differ or the lines agree from the new cursor on |
| Redisplay.UpdateCanMissAChange | vty.c:519-533 | A concrete pair outside that domain whose change is not drawn |
| Redisplay.RepaintOnBlankRow | vty.c:503-542 | On a blank row, with the old cursor at the start and the new one at the end, the update draws the whole line whatever line was remembered |
| Redisplay.UpdateLength | vty.c:503-538 | Between lines of at most m characters an update sends at most 3 * m bytes; for command lines that is less than the write buffer holds |
| Redisplay.UpdateBoundIsTight | vty.c:503-538 | The bound is reached from every non-empty line, by a line one shorter with another first character and the cursor at its start |
| Displays.Display.MoveCursor | vty.c:490-501 | The buffer gains one backspace per column to the left, or the line's own characters to the right |
| Displays.Display.Update | vty.c:503-542 | rl_update on its buffers sends exactly the specified update between remembered and current line, and remembers the current line and cursor |
| LineBuffers.LineBuffer.SaveChar | vty.c:546-563 | The shift in place is insertion at the zipper's cursor, refused exactly when the line has 127 characters; the terminator stays at rl_index |
| LineBuffers.LineBuffer.ClearChar | vty.c:565-582 | The shift in place is erasure of the character left of the cursor; it fails exactly at column 0 |
| LineBuffers.LineBuffer.ClearWord | vty.c:591-597 | Erases the spaces before the cursor and the word before them, whatever byte lies in front of the buffer |
| LineBuffers.LineBuffer.ClearLine | vty.c:599-604 | Erases everything left of the cursor and keeps the rest |
| LineBuffers.LineBuffer.MoveToBol | vty.c:618-624 | The cursor goes to the start, the text is unchanged |
| LineBuffers.LineBuffer.MoveToEol | vty.c:626-632 | The cursor goes to the end, the text is unchanged |
| LineBuffers.LineBuffer.BackwardChar | vty.c:634-640 | One column left unless at the start |
| LineBuffers.LineBuffer.ForwardChar | vty.c:642-648 | One column right unless at the end |
| LineBuffers.LineBuffer.ForwardWord | vty.c:650-659 | Over delimiters, then over the longest run without one |
| LineBuffers.LineBuffer.BackwardWord | vty.c:661-670 | Back over delimiters, then over the longest run without one |
| LineBuffers.LineBuffer.CapitalizeWord | vty.c:674-690 | In place what the zipper operation does |
| Zippers.CapitalizeMeaning | vty.c:674-690 | On the text: behind the gap, of spaces and the characters - . / @, at the cursor, the first character of the longest word is upper-cased and its others lower-cased, nothing else changes, and the cursor ends behind the word |
| Zippers.CaseWordMeaning | vty.c:692-714 | Likewise for changing all of the word to lower or to upper case |
| Zippers.WordForwardMeaning | vty.c:650-659 | The cursor goes to the end of that word, in the same text |
| Zippers.WordBackMeaning | vty.c:661-670 | The cursor goes to the start of the longest word in front of the gap left of it |
| Zippers.EraseWordMeaning | vty.c:591-597 | The spaces left of the cursor and the longest run without spaces in front of them go, the cursor to where they began |
| Zippers.LettersAre | vty.c:674-714 | Upper and lower case exchange the 26 letters of each alphabet and no other character |
| LineBuffers.LineBuffer.ToLowerWord | vty.c:692-702 | Past the delimiters the rest of the word is lower-cased, the cursor ends behind it |
| LineBuffers.LineBuffer.ToUpperWord | vty.c:704-714 | Past the delimiters the rest of the word is upper-cased, the cursor ends behind it |
| Zippers.MovesKeepText | vty.c:618-670 | No movement changes the text |
| Zippers.ErasuresAreRedrawable | vty.c:565-604 | Every erasure changes the length or nothing from the new cursor on |
| Zippers.CapitalizeIsRedrawable | vty.c:674-690 | Capitalizing changes nothing from the new cursor on and keeps the length |
| Zippers.CaseWordIsRedrawable | vty.c:692-714 | So do the other case operations |
| Histories.History.Add | vty.c:160-198 | The slots hold the earlier entries without the oldest of ten, then the line, unless it is all spaces or repeats the last entry; then nothing changes |
| Histories.HistoryIsTailOfLog | vty.c:160-198 | After any inputs the stored entries are the last ten of the log without blank lines and immediate repeats, in order |
| Histories.History.Newer | vty.c:99-108 | One entry newer, or past the newest |
| Histories.History.Older | vty.c:126-132 | One entry older, or none at the oldest |
| Histories.RecalledCopiesIff | vty.c:83-87 | A recalled line, used as a format, comes out as it is iff it holds no percent sign; the others come out shorter, of characters of the line |
| Histories.Format | vty.c:83-87 | The loop of a format without arguments gives the recalled line |
| Browsers.Browser.WriteEntry | vty.c:83-87 | The buffer holds the recalled line, the cursor at its end |
| Browsers.Browser.Older | vty.c:135-148 | On its buffers history_next is a step to the older entry, saving the unfinished line on leaving it; it fails exactly at the oldest |
| Browsers.Browser.Newer | vty.c:110-123 | On its buffers history_prev is a step to the newer entry or back to the saved line; it fails exactly at the unfinished line |
| Editing.BrowsingShowsEntries | vty.c:83-148 | Over any walk without edits, from any position: nothing changes until a step moves, and then the line is the recalled entry at the position reached, or at the end of the history the recalled unfinished line, cursor at its end; the unfinished line itself is what so many recalls made of it as the walk left it |
| Editing.BrowsingIsFaithful | vty.c:83-148 | Without percent signs the line is the entry itself, or the unfinished line itself, over any walk from any position |
| Editing.BrowsingRoundTrip | vty.c:83-148 | From any position, k steps older and k newer recall the line that belongs there, the unfinished line at the end of the history, cursor at its end; it is the same line iff it holds no percent sign |
| Editing.ReactIsGood | vty.c:750-811 | Every key leaves a line of at most 127 printable characters that the incremental redisplay can draw from the line before it |
| Keys.MovingKeys | vty.c:754-758 | The codes 1, 5, 2 and 6 (CTRL-A, E, B, F) put the cursor at the start, at the end, one left, one right; text, history and flags stay |
| Keys.ErasingKeys | vty.c:760-774 | The codes 8 and 127 erase the character left of the cursor, or ring at column 0; 21 and 24 (CTRL-U, X) erase all left of it |
| Keys.EraseWordKey | vty.c:775 | The code 23 (CTRL-W) erases the spaces left of the cursor and the word in front of them |
| Keys.BrowsingKeys | vty.c:766-767 | The code 14 (CTRL-N) shows the next older entry, keeping the unfinished line, and rings at the oldest; 16 (CTRL-P) the next newer, then the unfinished line, and rings there |
| Keys.OtherControlKeys | vty.c:763-778 | The codes 18 and 12 (CTRL-R, L) draw the line anew, 20 (CTRL-T) does nothing, 27 (ESC) waits for a key, and the 18 others ring |
| Keys.TypedKeys | vty.c:1001-1004 | Every other character goes into the text at the cursor, or rings if the line has 127 characters |
| Keys.EscapedKeys | vty.c:782-811 | Behind ESC: O and [ are passed over; A and B browse; C and D move one column; q and Q quote the next key; <, > and d do nothing; DEL erases all left of the cursor |
| Keys.EscapedMoves | vty.c:798-799 | Behind ESC f and b move over words |
| Keys.EscapedCases | vty.c:801-805 | Behind ESC c, l and u capitalize the next word, or change it to lower or upper case |
| Keys.EscapedOthers | vty.c:782-811 | Every other key behind ESC rings and ends the escape |
| Keys.QuotedKeys | vty.c:984-989 | A quoted key goes into the text whatever it is, but Return and codes from 127 on are dropped; the quote ends |
| Keys.SentForNoChange | vty.c:972-1006 | A key that leaves the line alone sends the code 7, or nothing, or for a line drawn anew a new row, the prompt, the line and backspaces to the cursor |
| Editing.RunKeepsBytes | vty.c:750-811 | Over any keys every line, draft and history entry stays a text of at most 127 bytes without NUL, quoted control characters included |
| Editing.PaintShows | vty.c:976-1006 | One pass of the loop: if the screen shows line and cursor before a key, it does so after the bytes the key causes |
| Editing.PaintShowsIff | vty.c:985-1006 | Exact for one pass: the screen follows iff the key is not a control character quoted into a line with room |
| Editing.ScreenFollowsEveryRun | vty.c:961-1009 | After every sequence of keys none of which inserts a control character, hence after every pass of the loop, the row shows exactly the line followed by blanks, with the cursor at rl_ptr |
| Editing.ScreenFollowsIff | vty.c:961-1009 | Exact for whole runs: the screen shows line and cursor after every pass iff no key is a control character quoted into a line with room |
| Editors.ApplyOp | vty.c:750-811 | Each key's line operation on the buffer is the state machine's operation; only erasing at column 0 fails |
| Editors.Editor.ReprintLine | vty.c:723-734 | A new row with a prompt is sent and nothing is remembered as shown |
| Editors.Editor.Reset | vty.c:231-249 | The line is empty, nothing is shown, both histories keep their entries, and the one of the mode is in use at its end |
| Editors.Editor.Leave | vty.c:231-249 | When a handler leaves the normal mode or comes back to it, the two histories change places, entries kept; otherwise they stay |
| Editors.Editor.Dispatch | vty.c:976-1004 | The branches of readline's loop take the state machine's step, and send nothing but a fresh prompt |
| Editors.Editor.HandleKey | vty.c:972-1007 | With echo on, a pass sends exactly the bytes the state machine says, and afterwards old_buff and old_ptr equal the line and cursor |
| Editors.Editor.Readline | vty.c:961-1009 | For every stream of received bytes: prompt and update are sent, the state machine follows the decoded characters up to the first that ends the line, CTRL-C resets its state, every byte sent is accounted for, what follows stays unread, and the mode and both histories' entries stay |
| Sessions.ReadlineIsShown | vty.c:1105-1147 | Whatever was sent before, as long as it ends with a new row: the bytes of a whole call of readline show the line and cursor after its keys, from any stale remembered line |
| Sessions.SessionIsReady | vty.c:1115-1147 | Over any sequence of calls ended by Return, Tab, question mark or CTRL-C, with any handlers changing mode and privilege, the next call finds a printable line of at most 127 characters with the cursor at its end, on a fresh row |
| Sessions.SessionIsShown | vty.c:1115-1147 | The session theorem: after any such rounds and any keys since, replaying every byte of the session leaves exactly the line on the row, with the cursor at rl_ptr |
| Sessions.RoundEnds | vty.c:1134 | Behind readline the row is ended, with a question mark in front of it after that key alone |
| Shells.EndingKeysAre | vty.c:991-998 | A line is ended by Return, Tab, the question mark or the code 3, unless quoted or behind ESC |
| Logs.EnterRecords | vty.c:936-943 | After Return the line is empty at the end of the history of the mode; a line with words is the newest entry of the history of the mode it was entered in, the other history stays, and only a handler that ran changes mode and privilege |
| Logs.EnteredLineComesBack | vty.c:936-943 | If the mode stays, CTRL-N right behind Return shows the line that was entered |
| Logs.HandlerRunsIff | commands.c:123-157 | A handler runs iff the line has words and they lead to a complete command |
| Logs.OtherEndsKeepHistories | vty.c:1115-1147 | CTRL-C, the question mark and Tab leave both histories, mode and privilege; CTRL-C empties the line, the question mark keeps it and Tab what it makes of it, the cursor at its end |
| Logs.HistoriesAreRecorded | vty.c:936-943 | Over any session, with any changes of mode, each history is what recording the lines with words entered in its mode gives |
| Logs.HistoriesHoldTheLog | vty.c:160-198 | So each history holds the last ten of these lines, without immediate repeats |
| Telnet.DecodeConcat | vty.c:295-341 | Decoding a concatenation is decoding its parts in turn |
| Telnet.ChunksDecodeAsOneStream | vty.c:345-381 | Characters and final state depend only on the concatenated bytes, not on how they arrive |
| Telnet.RegularStreamsDecode | vty.c:264-381 | For any interleaving of data, negotiations and blocks with doubled 255: exactly the data without LF and NUL is delivered, in order, blocks take effect in order, and the state is 0 at the end |
| Telnet.ItemSettlesIff | vty.c:295-341 | From rest the decoder's state is 0 after an item iff it is data other than 255, a negotiation with an option that is no command code, or a block; those have exactly the protocol's effect |
| Telnet.ItemDeliversIff | vty.c:295-341 | From rest an item and any plain data byte behind it are delivered as the protocol means them iff the item is of that kind; behind any other the byte is lost |
| Telnet.AtRestBetweenItemsIff | vty.c:295-341 | The decoder's state is 0 at every item boundary of a stream iff all items are of that kind |
| Telnet.StreamDeliversIff | vty.c:264-381 | At every item boundary of a stream the data so far and any plain byte sent next are delivered as the protocol means them, iff all items are of that kind |
| Telnet.Doubled255LosesTheNextByte | vty.c:308-318 | A doubled 255 in the data is delivered once and any plain byte behind it is lost |
| Telnet.BlockDecodes | vty.c:264-341 | A block delivers nothing, leaves the first 16 bytes of its un-doubled payload and takes effect at its end |
| Telnet.WindowSizeIff | vty.c:275-287 | A window-size block of five bytes or more, whatever follows them, sets the encoded width iff plain char is unsigned or both bytes are below 128; likewise the height. Any other block, and a shorter one, leaves both alone |
| Telnet.NegotiationIsSilentIff | vty.c:295-341 | WILL, WONT, DO or DONT and an option are passed over and the byte behind them delivered iff the option is below 236 |
| Telnet.PlainByteIff | vty.c:371-381 | At rest every byte but 0, 10 and 255 is delivered |
| Readers.Reader.Command | vty.c:295-341 | On its fields telnet_cmd is the decoder's step |
| Readers.Reader.HandleSubnegotiation | vty.c:275-293 | On its buffer hdl_iac_sb sets width and height from a long enough window-size payload and nothing else |
| Readers.Reader.NextByte | vty.c:345-368 | The next received byte across chunks; none exactly when the peer has closed |
| Readers.Reader.GetChar | vty.c:371-381 | Delivers exactly the next decoded character of the bytes to come, never LF or NUL, and consumes exactly the bytes up to the one that delivers it, taking the effect of the blocks among them and no more |
| Paging.PageConserves | vty.c:434-456 | What is sent of a buffer, prompts excluded, is a prefix of it, and all of it unless aborted or closed |
| Paging.OffIffAborted | vty.c:399-456 | Paging goes off iff the last character taken at a prompt is none of SPACE, y, Y and RETURN |
| Paging.RunConserves | vty.c:434-483 | Never aborted, a run sends exactly the concatenated outputs |
| Paging.AbortDropsOneTail | vty.c:427-456 | An abort costs the tail of one output and nothing of the others |
| Paging.RunIsDisciplined | vty.c:388-456 | For any outputs, answers and heights of at least 2, also across calls: exactly height - 1 newlines between SPACE, y or Y at a prompt and the next prompt, exactly one after RETURN, the prompt right behind the last one, and no prompt after any other character |
| Paging.ReplyMeaning | vty.c:413-429 | SPACE, y and Y reset the count, RETURN leaves it two below the height, and any other character aborts |
| Paging.AsksIff | vty.c:434-452 | Within one output, at any count and height, the user is asked iff the height is not 1 and the limit lies ahead within the text's newlines, or the count stands at it and the text begins with another character |
| Paging.UsesKeepLimitAhead | vty.c:388-456 | Whatever is switched, printed, answered and resized, the count never reaches the limit of a window of two lines or more between outputs |
| Paging.AsksIffPageIsFull | vty.c:434-452 | So in such a window an output asks iff it completes the page |
| Paging.SmallWindowNeverAsks | vty.c:434-452 | In a window of one line, or of none with the count not below it, no run of outputs asks and all of it goes through |
| Paging.SmallWindowNeverAsksIff | vty.c:399-452 | In windows of at most one line no outputs and no replies ever ask iff the height is 1 or the count is not below it |
| Paging.ReturnAsksAgain | vty.c:421-452 | After RETURN in a window of no lines an output asks again iff it holds a newline |
| Outputs.Output.AskAutomore | vty.c:399-432 | Nothing is asked at line count 0; else the prompt is shown and taken off once per key, with help for each question mark, and the answer sets the line count as the machine says |
| Outputs.ReplyIsRead | vty.c:404-429 | The answer is the first character typed that is no question mark, with as many helps as there are question marks in front of it |
| Outputs.Output.AutomoreOutput | vty.c:434-456 | On w_buff the loop sends exactly the machine's events for the answers it reads, and ends in its state |
| Outputs.Output.VtyOut | vty.c:460-483 | Paged, the text cut to 1023 characters goes through the pager; else it is sent unchanged, one of 1024 characters with a NUL for its last |
| Outputs.Output.AutomoreOn | vty.c:388-391 | Paging is on, count and height stay |
| Outputs.Output.AutomoreOff | vty.c:393-397 | Paging is off and nothing is counted |
| Outputs.EraseTakesThePromptOff | vty.c:409-411 | On a row that is blank behind the cursor the prompt leaves no trace and the cursor is back |
| Tokens.MunchIff | lex.c:8-34 | Of all rules and lengths the scanner's token is the longest match, the first rule among equals, and it is the only such token |
| Tokens.TokenizesIff | lex.c:8-34 | Every line has exactly one maximal-munch token sequence, ending at the first carriage return |
| Tokens.WordsRoundTrip | lex.c:17-32 | Words joined by spaces scan back to the same words |
| Tokens.ArgsRoundTrip | lex.c:17-22 | At most nine words come back as the argument vector |
| Tokens.WordsStopAtReturn | lex.c:24-28 | Nothing behind the first carriage return is scanned |
| ScanTables.EcIsClass | lex.yy.c:369-399 | The table gives each of the 256 characters the class the rules need |
| ScanTables.DefaultsDescend | lex.yy.c:401-428 | Every lookup is within the tables, and a state without an own entry has a default of smaller rank, so every chain ends |
| ScanTables.BlankTransitions | lex.yy.c:363-428 | The blank states move on blanks, to the end state on NUL, and jam on all else, through their default chains |
| ScanTables.WordTransitions | lex.yy.c:363-428 | The word states move on word characters, to the end state on NUL, and jam on all else, through their default chains |
| Scanners.StateStep | lex.yy.c:650-667 | The state reached says what was read: nothing, one character, blanks, a word, or more than one token |
| Scanners.StuckIff | lex.yy.c:651-667 | The loop stops exactly when no longer token can come, and the accepting states are those of the rules |
| Scanners.MatchEnd | lex.yy.c:669-677 | The action found, after backing up, is the rule of the maximal munch at its end; or the end of the buffer if the whole rest may still grow |
| Scanners.NextState | lex.yy.c:658-664 | The loop down the default chain finds the specified transition |
| Scanners.Scanner.Match | lex.yy.c:636-667 | The match loop ends in a stuck state with the last accepting state and position remembered |
| Scanners.Scanner.PreviousState | lex.yy.c:985-1014 | At the buffer's end the state is recomputed from the token's start |
| Scanners.Scanner.NextAction | lex.yy.c:636-820 | One turn of the loop consumes the maximal munch of what is left and terminates it in the buffer, or reports the end of the text exactly when nothing is left |
| Scanners.Scanner.LexScan | lex.yy.c:595-854 | For every NUL-free line the argument vector holds its first nine words in order, NULL-terminated within ten slots, and their number is returned; line feeds are echoed |
| Lists.AddBetween | lists.h:145-153 | The ring gains the new link between its two neighbours, in both directions |
| Lists.Add | lists.h:168-171 | The new link goes behind the given one |
| Lists.AddTail | lists.h:159-162 | The new link goes in front of the given one; in front of the head means at the end |
| Lists.Delete | lists.h:121-128 | The other links keep their ring and order, the deleted one points nowhere |
| Lists.MoveToTail | lists.h:177-181 | Both lists stay rings; the link leaves one and ends the other |
| Lists.RingIsUnique | lists.h:41-43 | The links determine the sequence that iteration reads |
| Lists.IsEmpty | lists.h:135-138 | Answers iff the ring is the head alone |
| Menus.LessIsTransitive | commands.c:104-105 | The order of names is transitive |
| Menus.LessIsTotal | commands.c:104-105 | The order of names is total and strict |
| Menus.LessIff | commands.c:104-105 | One name comes before another iff it is a proper prefix of it, or has the smaller character where they first differ |
| Menus.RegisteredIsSorted | commands.c:97-113 | After any sequence of registrations the menu is sorted |
| Menus.RegisteredIsStable | commands.c:97-113 | Its commands of each name are exactly those registered under it, in registration order |
| CommandLists.CmdRegister | commands.c:97-113 | On a well-formed forest the command gets an empty menu of its own and joins its ring in front of the first greater name; everything stays well formed |
| CommandLists.RegisteringKeepsSorted | commands.c:97-113 | Registering keeps every menu of the forest sorted |
| Registrations.RegisterAll | commands.c:97-113 | On the links, any sequence of registrations to menus that are there by then gives the forest of the declarative sequence, all of it well formed |
| Registrations.MenuIsRegistered | commands.c:97-113 | In that forest every menu that starts empty, a command's own included, is the sorted insertion of the commands registered to it, one by one |
| Registrations.MenusAreSortedAndStable | commands.c:382-423 | So every menu built by any such sequence is sorted, with exactly its commands, equal names in registration order |
| CommandLists.CmdIsCompletion | commands.c:115-121 | Answers iff the word is a prefix of the name, with the rest of the name |
| CommandLists.MatchWord | commands.c:132-145 | The inner loop finds none, the one, or the first of several visible commands the word is a prefix of |
| CommandLists.CmdFinder | commands.c:123-157 | On links and argument vector the loops give the walk's status and match |
| Commands.FindIffJudged | commands.c:123-157 | For every tree, words, privilege and action the walk's status and match are those of the declarative reading: at each menu of a path exactly one index whose command has at most the user's privilege and the word as a prefix of its name; stopped by the first final command of a FIND, by the words' end, or by the first word with no or several matches |
| Commands.CandidatesIff | commands.c:132-145 | No command, one, or several are matched exactly as the menu's indices have commands of at most the user's privilege with the word as a prefix of their names; of several the first |
| Commands.OneWord | commands.c:123-157 | One word is found iff it fits exactly one such command, ambiguous iff it fits several, and invalid iff it fits none |
| Commands.PathIsVisible | commands.c:132-149 | Every command on the path of a walk has at most the user's privilege, and its word is a prefix of its name |
| Commands.HelpLooksAhead | commands.c:128-157 | Help on the last word walks the words in front of it as completion does, and help behind the words all of them |
| Completion.CmdComplete | vty.c:890-897 | In place, the text behind the last space becomes the match and a space, cursor and rl_index at the end |
| Completion.WordsOfCompleted | vty.c:890-897 | Scanning the completed line gives the typed words with the last one replaced by the match |
| Completion.FindWithName | commands.c:123-157 | If a walk for completion finds a command, its name in place of the last word finds it again |
| Completion.TypedTextStaysIff | vty.c:890-897 | The typed line stays a prefix iff the text behind its last space is a prefix of the match |
| Completion.CompletionIsStable | vty.c:890-929 | For a line of at most nine words ending in one, a successful Tab only appends, and scanning and looking up the completed line finds the same command |
| Completion.CompletionBeyondNine | vty.c:890-929 | With ten words or more the last one is replaced by a command that the ninth fits |
| Sessions.AfterTabIsLineText | vty.c:890-929 | For names of the same characters: Tab leaves a line of the same characters and at most 127 of them iff its match fits behind the last space |
| Sessions.TabIsJudged | vty.c:900-957 | For any menus and words: if the walk over the line's words ends with a command and the line with no space, the text behind its last space becomes that command's name and a space; if the words are ambiguous or invalid, or a space ends the line, the line stays |
| Sessions.TabWithoutWords | vty.c:953-957 | Without words Tab leaves the line |
| Sessions.TabCanOverflow | vty.c:890-929 | A line of 115 characters, reachable from the keyboard, of which Tab makes 128 |
| Shells.Shell.Tab | vty.c:953-957 | The line is completed exactly when it ends in input and its words lead to one command; nothing else changes |
| Shells.Shell.Enter | vty.c:936-943 | A line with words is recorded and looked up; the command found leaves its mode and privilege; then the line is reset in the history of the mode |
| Shells.Shell.Finish | vty.c:1125-1146 | After readline the line is scanned on a new row and handled by its key; the next call finds exactly the state the session machine gives, with old_ptr at the line's start |
| Shells.Shell.Turn | vty.c:1115-1147 | One turn of the loop, for every stream of received bytes: readline reacts to the characters before the first that ends the line, and state, remembered line and every byte sent are those of one round of the session machine, ready for the next |
| Shells.Shell.Serve | vty.c:1115-1147 | The loop itself, over any number of turns, any received bytes and any handlers: the characters received make up the rounds, each cut at the first key that ends a line, and state, remembered line and every byte sent are those of the session machine over these rounds, then of the call of readline in which the peer closed |
| Shells.HungUpIsShown | vty.c:1115-1147 | Those bytes, replayed on any screen, show the line in the buffer with the cursor in place: the session theorem for what the loop sends |
| Timers.TimeAfterIff | timers.c:65-69 | For times less than a word apart the wrapped comparison is right iff the first is less than half a word behind and at most half a word ahead |
| Timers.ClockIsSum | timers.c:172-195 | The clock is its start plus the increments so far, whatever was added and fired |
| Timers.RunKeepsSorted | timers.c:102-195 | Any run of adds and increments within half a word keeps the list sorted by expiry |
| Timers.EqualExpiriesAreFifo | timers.c:102-112 | A timer added to a sorted list goes behind those of its expiry and changes the order of no others |
| Timers.RunIsFifo | timers.c:102-195 | Over any run within half a word the timers of each expiry fire in the order they were added, and those pending come next in that order |
| Timers.RunConservesTimers | timers.c:102-195 | As often as a timer was added it was fired or is pending, in any run |
| Timers.PendingIff | timers.c:102-195 | A timer is pending iff it was added and no increment since reached its expiry |
| Timers.FiresWhenDueIff | timers.c:172-195 | A timer fires at an event iff that is the first increment after its insertion that reaches its expiry |
| Timers.FiredInOrder | timers.c:172-195 | One increment fires its timers in order of expiry, and those of one expiry are the next ones in the order they were added |
| TimerQueues.TimerQueue.AddTimer | timers.c:102-112 | On the linked list the new timer goes in front of the first that expires later, as the machine inserts it |
| TimerQueues.TimerQueue.IncrementTime | timers.c:172-195 | On the linked list the clock word advances and exactly the machine's fired timers leave the list and are called, in order |

## Left out

- Sockets, threads, signals and accept loops: `sk_recv` is an arbitrary supply of non-empty chunks that ends when the peer closes, `sk_send_all` appends to a sequence.
- Netlink, interface statistics, login and banner: they rest on code outside the repository, print, or compare what readline returns.
- The bodies of command handlers: they print, change the mode and the privilege, or read input themselves. A turn takes what a handler prints and the mode and privilege it leaves as given. The input handlers read from the same connection is not part of this model: the password of `enable`, and the answers to the pager while `show interfaces` prints.
- The literal names of `commands_init`: its calls are one of the sequences of registrations the lemmas quantify over.
- The cells of the screen for lines longer than the window, 8-bit case conversion, and the look of quoted control characters: the row has no right margin, case conversion is that of the C locale, and quoting is covered by the exact condition in `Editing.PaintShowsIff`.
- Editors.Editor.Readline: with echo off the bytes sent are not specified, because the redisplay is skipped; the line is.
- Editing.ScreenFollowsEveryRun: terminals with a right margin are excluded, as are keys that insert a control character, for which `Editing.ScreenFollowsIff` shows that the screen does not follow.
- LineBuffers.LineBuffer.ClearWord: the byte in front of the buffer, which the source reads at column 0, is an arbitrary value.
- Histories.RecalledCopiesIff: a percent sign followed by anything but another one reads arguments that are not there, which is undefined; the model ends the line at it.
- Browsers.Browser.Older: likewise.
- Browsers.Browser.Newer: likewise.
- Editing.BrowsingShowsEntries: likewise.
- Editing.BrowsingRoundTrip: likewise.
- Shells.Shell.Turn: likewise; and room for the match of a Tab is required, as for `Completion.CmdComplete`.
- Shells.Shell.Serve: likewise, for every Tab the received characters can lead to.
- Histories.History.Add: the last shift of `history_del`, which reads one slot past the array, is left out; the slot it fills is overwritten at once.
- Outputs.Output.VtyOut: an unpaged text of more than 1024 bytes is excluded, because the source then sends bytes from behind its buffer; texts hold no NUL.
- Telnet.RegularStreamsDecode: command codes are taken as 236 to 255; a telnet negotiation whose option is such a code is outside the regular streams, with the exact conditions in `Telnet.ItemDeliversIff` and `Telnet.StreamDeliversIff`.
- Telnet.WindowSizeIff: whether plain char is signed is a parameter.
- CommandLists.CmdFinder: the caller's guarantee of at least one word, two for C_HELP, is required; with fewer the source reads past the terminator, and its caller handles that case.
- Completion.CmdComplete: room for the match is required, because the source does not check for it and prints past the buffer, with the exact condition in `Sessions.AfterTabIsLineText`.
- Shells.Shell.Tab: likewise, and command names are C strings.
- Shells.Shell.Enter: the handler of the command found is its effect on mode and privilege only.
- Shells.Shell.Finish: what handlers, help and error messages print is given, not computed.
- Sessions.SessionIsShown: command names and the prompt are printable, the match of each Tab fits, and what is printed is nothing or ends in CR LF. The source's login reads its own prompts the same way, but a reprint there shows the command prompt instead.
- Scanners.Scanner.LexScan: the buffer stack, refilling, `unput` and the branch for a NUL within the text are left out, since only whole NUL-free strings are scanned; allocation does not fail.
- Timers.RunKeepsSorted: callbacks do not touch the list, and the signed subtraction of the clock wraps. `__del_timer`, `__mod_timer` and the running-timer list depend on helpers that are not part of this model.

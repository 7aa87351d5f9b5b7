# BGY_Chat: templates, request dialog, main window

A Dafny model of the parts of the BGY_Chat messenger that decide something, with proofs about
them. `dafny verify dfyconfig.toml` checks the whole project.

**Templates.** `Placeholders` searches and counts the mark `%s`. `Expander` is the one-pass
`AddString`, which goes on searching at the start of the text it has just inserted and so
rescans arguments. `BoundedConcat` is the concatenating overload over a 1024-byte buffer.
`TwoPass` is the prototype that stores all positions in an array of 128 `unsigned char` and
then edits at positions that earlier edits have made stale; `TwoPassFaults` says for which
calls it overruns, throws or returns the wrong text, `TwoPassText` what that text is. What is undefined or throws in these
functions is an outcome of the model, not a precondition: an argument read that was not
passed, a refused append, a position behind the end of the text, a read behind the array.

**Request dialog.** `FriendDialog` holds the dialog's class and the functions its methods
compute: a vector of pending requests beside a list box, and the handshake of the three
buttons with an arbitrary reply. The handlers take every selection of a listed entry, and
report when erasing the request behind it is undefined. `FriendRuns`, `Alignment`,
`Handshake` and `Traffic` state what holds over every run of clicks. The loop that is meant to empty the box deletes by a growing index
from a shrinking list and leaves every second entry. `AsWritten` is that loop; `Cleared` is
what the comment above it intends (MFCApplication1/FriendControlView.cpp:58-60).

**List boxes.** `ListBoxes` leaves the place of a new string open. Both boxes of the client
are declared with `LBS_SORT` in `MFCApplication1/MFCApplication1.rc` (a UTF-16 file, lines 132
and 146), so the results about which request is answered are for a sorting box; the results
for an appending box stand beside them, and all others hold for any placement. The comparison
a sorting box uses is any total, transitive one, given by ranks; it may be blind to case.

**Main window.** `MainWindow` splits the friend records between the list box and a new
dialog, shows and deletes the dialog, and opens chat windows.

What the proofs show about the code, beyond what one function says:

- The expander is a plain formatter exactly when no argument holds a `%s` or completes one
  with the literal text behind it; otherwise it reads more arguments than there are marks.
  Where no argument forms a mark with what comes behind it, the call finishes exactly when
  some first k arguments hold, with the template, k marks, and it reads the fewest such k.
- The two overloads agree exactly when no argument holds a `%s` and all of them fit the buffer.
- The prototype overruns its array for the empty template, for every template of 259
  characters or more, and for two kinds of 258; in bounds it finds exactly the marks if and
  only if at most one character follows the last one.
- Whether it returns or throws depends on positions and lengths alone, and `"%s%s%s"` with
  two empty arguments first throws. Its text is right, for arguments that differ from all text
  before them, exactly when at most one character follows the last mark and each argument but
  the last has two characters.
- It leaves a `%s` in its result, for arguments that form none themselves and are no shorter
  than the mark, exactly when those before the last are two characters longer in all than
  their marks. The call in its own `main` is one of these. Every text it returns is determined:
  from each stored position up to the next, the argument and what earlier ones displaced there.
- As written, some run of the dialog comes to an erase behind the vector's end exactly when
  there is more than one request; with a box that is cleared, none does.
- After the first confirmed answer, the dialog's box never shows just the vector again until
  it is empty, and answering its last entry with success is such an erase.
- The name sent is the name erased, over every run, exactly when the requests arrived in the
  box's order and there are at most two of them, or all are equal from the second on; with a
  box that is cleared, whenever they arrived in that order.
- Over every run and every reply the messages form the handshake language, and are those of
  the clicks that send, in click order, refused ones included; one request string
  is lost per confirmed answer, in the dialog and over every run of the window, and one
  `FriendInfo` is not deleted per refusal.

Assumptions. A selection is -1 or an entry of the box. Erasing a vector entry that does not
exist is undefined, so a run ends before a confirmed answer with such a selection; `DefinedIff`
says when a run can get there, `MirrorIsLost` in which states it is one click away. The
dialog's vector is filled before the dialog is shown, as `InitFriendList` does it. `SendData`
failures are only reported by the source and change nothing, so a message in the model is an
attempt to send. Arguments are C strings.

## Model

| member | source | states |
|---|---|---|
| Placeholders.Find | Common/common.h:205 | the first mark at or after a position, and none before it; None exactly when there is none |
| Placeholders.CountConcat | Common/common.h:204-213 | gluing two texts adds their marks, and one more exactly when the joint forms one |
| Placeholders.PositionsAreAll | TestString/main.cpp:19-26 | the listed positions are all marks and only marks, at least two apart |
| Expander.AddString | Common/common.h:197-216 | the find/replace/insert loop computes the rescanning expansion, and reports an argument that was not passed |
| Expander.SpliceParts | Common/common.h:210-212 | the text before the position stays, the argument follows, and then what is left without two characters, near the end too |
| Expander.TurnOfLoop | Common/common.h:205-212 | one turn makes the text before the new position final and keeps what the rest expands to |
| Expander.SplitIsExact | Common/common.h:195-205 | segments are mark-free, one more than the marks, and rendering them with marks gives the template back |
| Expander.ReadsAtLeastThePlaceholders | Common/common.h:204-213 | a finished expansion has read at least one argument per mark, and no more than were passed |
| Expander.LengthLaw | Common/common.h:210-212 | result length: template, minus two per argument read, plus the arguments read, rescans included |
| Expander.ExpandIsRender | Common/common.h:197-216 | without rescans the result is the interleaving of segments and arguments, one argument per mark |
| Expander.ReadsOnePerPlaceholderIff | Common/common.h:204-213 | with enough arguments, one is read per mark if and only if no argument holds or completes a mark |
| Expander.FinishesIff | Common/common.h:204-213 | called with one argument per mark, it reads one that was not passed if and only if some argument holds or completes a mark |
| Expander.ConsumptionLaw | Common/common.h:204-213 | when no argument forms a mark with what comes behind it, the call finishes if and only if some first k arguments hold, with the template, exactly k marks; it reads the least such k |
| Expander.ConsumptionBounds | Common/common.h:204-213 | for any call that finishes: the arguments read are no fewer than the marks of template and arguments, and exceed them by at most the arguments ending in a percent sign |
| Expander.SurelyFinishes | Common/common.h:204-213 | any call finishes when some first k arguments are enough with these added |
| Expander.MarkedArgumentsNeverFinish | Common/common.h:204-213 | when every argument holds a mark, no number of arguments lets the loop end |
| Expander.Composes | Common/common.h:197-216 | rescans included: expanding a+b is expanding a, then b with the remaining arguments, when a reads just its own and what its expansion leaves to search forms no mark with b |
| Expander.ComposesPlain | Common/common.h:197-216 | over the inputs: without rescans and with a cut that breaks no mark, a finishes on its own arguments and a+b expands to a's text followed by b's |
| Expander.CountOfFlat | Common/common.h:212 | glued mark-free pieces hold exactly the marks formed at their joints |
| Expander.StableIff | Common/common.h:197-216 | a second expansion changes nothing and reads nothing if and only if no joint of the result forms a mark |
| Expander.PercentFreeIsStable | Common/common.h:197-216 | no percent sign in the arguments or before a mark: the result is final |
| BoundedConcat.StrcatS | Common/common.h:186 | appends exactly when the closing NUL still fits, and then holds the old text followed by the new |
| BoundedConcat.AddString | Common/common.h:178-193 | the loop returns a text exactly when the lengths total at most 1023; it has that length, and each argument stands behind the ones before it, whatever it holds; otherwise an append was refused |
| BoundedConcat.ConcatenatedIsExact | Common/common.h:178-193 | the same for the function the loop computes, over every argument list |
| BoundedConcat.OverloadsAgreeIff | Common/common.h:178-216 | both overloads return the same text for k arguments and k marks if and only if no argument holds a mark and all fit the buffer |
| TwoPass.CollectPositions | TestString/main.cpp:15-26 | the do/while loop fills the array as specified, or reads behind it |
| TwoPass.AddString | TestString/main.cpp:10-35 | both loops together: text, exception, missing argument or overrun |
| TwoPass.OverrunsIff | TestString/main.cpp:15-26 | for every template: the array is overrun exactly when it is empty, has 259 characters or more, or has 258 and a mark at 256, or 128 marks and none at 255 |
| TwoPass.CollectIsExactIff | TestString/main.cpp:15-26 | wherever the array is not overrun, it holds exactly the marks if and only if at most one character follows the last; otherwise one entry 255 comes behind them |
| TwoPass.TruePosition | TestString/main.cpp:28-32 | once the earlier marks are filled, mark i is found at its stored position plus the sum of (length - 2) over the earlier arguments, and editing there fills it |
| TwoPass.StaleIsTrueIff | TestString/main.cpp:28-32 | every position edited is where its mark then stands, if and only if every argument but the last has two characters |
| TwoPass.PassesAgree | TestString/main.cpp:10-35 | on such calls the prototype returns the plain formatter's text, and the one-pass expander's when nothing is rescanned |
| TwoPassFaults.OutcomeIff | TestString/main.cpp:10-35 | for every template and arguments: returns, throws and overruns are decided by lengths and stored positions alone |
| TwoPassFaults.ReturnsIff | TestString/main.cpp:25-32 | without surplus arguments the call returns if and only if none is missing, at most one character follows the last mark, and the lengths reach every position, as they do when none is shorter than the mark |
| TwoPassFaults.SurplusThrowsIff | TestString/main.cpp:25-33 | with a surplus argument, the false entry 255 throws if and only if an earlier entry does or fewer than 255 characters are left |
| TwoPassFaults.ExampleThrows | TestString/main.cpp:28-33 | an ordinary call with empty arguments that throws |
| TwoPassFaults.RenderAround | TestString/main.cpp:28-35 | in the plain formatter's text, argument m stands where its mark stood once the earlier ones were filled |
| TwoPassFaults.RendersIff | TestString/main.cpp:10-35 | for arguments that begin with a character new to the text, the result is the plain formatter's if and only if at most one character follows the last mark and every argument but the last has two characters |
| TwoPassFaults.PlaceholderLeftIff | TestString/main.cpp:28-35 | for arguments that form no mark with any text, those before the last no shorter than the mark: the result holds a mark if and only if these are two characters too long in all |
| TwoPassFaults.LastPlaceholderSurvives | TestString/main.cpp:28-35 | one half for arguments of any content: with the earlier arguments two characters too long in all, the result still holds a mark |
| TwoPassFaults.OwnCallKeepsPlaceholder | TestString/main.cpp:37-40 | so does the result of the call in main |
| TwoPassFaults.ExampleTwoPasses | TestString/main.cpp:28-34 | the smallest call whose result still holds a mark |
| TwoPassText.TextOfTwoPasses | TestString/main.cpp:28-35 | the text of every call that returns: the template up to the first stored position, from each up to the next the argument and what earlier ones displaced there, two characters removed, and behind the last all of it |
| TwoPassText.ArgumentsShow | TestString/main.cpp:28-35 | each argument shows at its stored position as far as the next one lets it, the last one whole |
| TwoPassText.OwnCallText | TestString/main.cpp:37-40 | the literal text that main prints |
| ListBoxes.DeleteAt | MFCApplication1/FriendControlView.cpp:209 | erasing keeps the entries before the index and moves those behind it up by one; an index out of range changes nothing |
| ListBoxes.SortedIsUnique | MFCApplication1/FriendControlView.cpp:47 | a sorted box is determined by its names when no two different names tie |
| ListBoxes.BehindIsSorting | MFCApplication1/FriendControlView.cpp:47 | every comparison has a placement that keeps a box sorted |
| FriendDialog.FriendControlView.constructor | MFCApplication1/FriendControlView.cpp:15-18 | nothing pending, no box, nothing allocated |
| FriendDialog.FriendControlView.UpdateRequestFriendList | MFCApplication1/FriendControlView.cpp:84-94 | before the box exists a fresh string joins the vector; afterwards only the box changes |
| FriendDialog.FriendControlView.InitListView | MFCApplication1/FriendControlView.cpp:36-50 | the box holds the vector's names, placed in order |
| FriendDialog.FriendControlView.UpdateListView | MFCApplication1/FriendControlView.cpp:52-82 | unchanged when the sizes agree, else deletion loop and copy |
| FriendDialog.FriendControlView.ReqAcceptBtnClicked | MFCApplication1/FriendControlView.cpp:136-215 | nothing without a selection; else header with count 2, the reply, and on SUCCESS the datum, for every reply; a refusal leaves one FriendInfo, a confirmation erases at the selection, or that is undefined |
| FriendDialog.FriendControlView.ReqRejectBtnClicked | MFCApplication1/FriendControlView.cpp:217-296 | the same with count 1 and the friend flag off |
| FriendDialog.FriendControlView.AddFriendBtnClicked | MFCApplication1/FriendControlView.cpp:298-392 | an empty id changes nothing; any other sends an add header with count 1, takes the reply, and on SUCCESS sends the id as a friend and no request; a refusal leaves one FriendInfo |
| FriendDialog.FriendControlView.DoModal | MFCApplication1/MainView.cpp:247 | a shown dialog ends in the state that its clicks lead to, or reports that one of them was undefined |
| FriendDialog.FriendControlView.Destroy | MFCApplication1/FriendControlView.cpp:20-27 | exactly the strings still in the vector are freed, each once: freeing one that is not live is excluded by the contract of the single free |
| FriendRuns.LoopLeavesOdds | MFCApplication1/FriendControlView.cpp:72-74 | the deletion loop leaves exactly the odd-indexed entries in order |
| FriendRuns.UpdateShows | MFCApplication1/FriendControlView.cpp:52-82 | equal sizes leave the box alone; otherwise the odd entries stay and the vector's names are placed in order |
| FriendRuns.RebuildIsCopyIff | MFCApplication1/FriendControlView.cpp:71-79 | a rebuild shows just the vector's names, in any order, if and only if the old box had at most one entry |
| FriendRuns.ConfirmedClick | MFCApplication1/FriendControlView.cpp:205-211 | after an erase the sizes never agree, so the box is always rebuilt |
| FriendRuns.BoxCoversVector | MFCApplication1/FriendControlView.cpp:52-82 | over every run the box holds all pending names, and at most twice their number plus one |
| FriendRuns.MirrorIsLost | MFCApplication1/FriendControlView.cpp:71-79 | once a request was answered, a box that is not empty has entries beyond the vector, and a confirmed answer to the last of them is undefined |
| FriendRuns.DefinedIff | MFCApplication1/FriendControlView.cpp:205-209 | for any placement: everything the box lists can be answered, in every state of every run, if and only if there is at most one request |
| FriendRuns.ClearedIsDefined | MFCApplication1/FriendControlView.cpp:58-60 | with a cleared box, everything it lists can always be answered |
| FriendRuns.VectorIsSuffix | MFCApplication1/FriendControlView.cpp:71-79 | in an appending box the vector is always the last part of the box |
| FriendRuns.AlignedIffSorted | MFCApplication1/FriendControlView.cpp:145-209 | a sorted box of exactly the pending names lines up with the vector if and only if the vector is in box order |
| FriendRuns.ClearedIsAlignedIff | MFCApplication1/FriendControlView.cpp:58-60 | with a cleared box, every run sends what it erases if and only if the requests arrived in box order |
| FriendRuns.ClearedAppendingMirrors | MFCApplication1/FriendControlView.cpp:58-79 | with a cleared, appending box, box and vector agree over every run |
| Alignment.FirstClickAlignedIff | MFCApplication1/FriendControlView.cpp:205-211 | after the first confirmed answer names line up if and only if there were at most two requests, or all the names kept from the second on are equal |
| Alignment.FirstClickAppendingIff | MFCApplication1/FriendControlView.cpp:205-211 | the same for an appending box: exactly when the remaining names repeat behind the odd old ones; for distinct names, one request, or two and the first answered |
| Alignment.AsWrittenIsAlignedIff | MFCApplication1/FriendControlView.cpp:136-296 | every run sends what it erases if and only if the requests arrived in box order and are at most two, or all equal from the second on |
| Alignment.AsWrittenAppendingIff | MFCApplication1/FriendControlView.cpp:136-296 | in an appending box, every run sends what it erases if and only if all names are equal |
| Alignment.SentIsErasedIff | MFCApplication1/FriendControlView.cpp:201-209 | the last message names the erased request if and only if box and vector agree at the selection |
| Handshake.WireGrows | MFCApplication1/FriendControlView.cpp:181-203 | one handshake keeps the message language, with the types and counts of its three headers, and adds one refusal, or one confirmation with its data |
| Handshake.AccountedOverRun | MFCApplication1/FriendControlView.cpp:171-214 | over every run: data messages equal confirmations, undeleted FriendInfo objects equal refusals, erased requests equal confirmed answers |
| Handshake.RunIsAccounted | MFCApplication1/FriendControlView.cpp:20-27 | the strings that the destructor can no longer reach are as many as the confirmed answers |
| Handshake.ErasuresAreConfirmed | MFCApplication1/FriendControlView.cpp:171-209 | the confirmed answers on the wire are the confirmed clicks of the run, and no more than the requests |
| Traffic.AcceptSends | MFCApplication1/FriendControlView.cpp:136-215 | an accept with a selection, for any reply: its messages, the FriendInfo left by a refusal, the request erased |
| Traffic.RejectSends | MFCApplication1/FriendControlView.cpp:217-296 | the same for a reject |
| Traffic.AddFriendSends | MFCApplication1/FriendControlView.cpp:298-392 | the same for an add click, and nothing for an empty id |
| Traffic.SilentClick | MFCApplication1/FriendControlView.cpp:139-143 | a click without a selection or an id leaves the whole dialog as it was |
| Traffic.RunTraffic | MFCApplication1/FriendControlView.cpp:136-392 | over every run: headers and replies are those of the clicks that send, in click order, whatever was replied; the data those of the confirmed ones, with their flags, and the id of each added friend |
| Traffic.ClickOfRun | MFCApplication1/FriendControlView.cpp:145-203 | each click of a run adds its messages to those before it, the datum naming the entry that the box shows at that moment |
| Traffic.RunNumbers | MFCApplication1/FriendControlView.cpp:136-392 | over every run: headers with count 2 are the accepts with a selection, respond headers with count 1 the rejects with one, add headers the add clicks with an id; one FriendInfo is left per refused click |
| MainWindow.MainView.constructor | MFCApplication1/MainView.cpp:31-40 | the window after its initialisation |
| MainWindow.MainView.InitFriendList | MFCApplication1/MainView.cpp:46-72 | confirmed friends are placed in the list, the others queued in the dialog in record order |
| MainWindow.MainView.FriendCtlBtnClicked | MFCApplication1/MainView.cpp:240-252 | the new window state after any dialog run, including the strings lost, or that a click of the run was undefined |
| MainWindow.MainView.TalkBtnClicked | MFCApplication1/MainView.cpp:253-308 | a window is added exactly when none has the selected target |
| MainWindow.SplitByFlag | MFCApplication1/MainView.cpp:57-68 | a name is listed, or queued, exactly when some record with that flag has it |
| MainWindow.SplitIsPartition | MFCApplication1/MainView.cpp:53-69 | every record goes to exactly one side, as often as it occurs |
| MainWindow.ListHoldsCopies | MFCApplication1/MainView.cpp:53-69 | after m openings the list holds every friend m times, and a new dialog exactly the requesters, whatever was answered before |
| MainWindow.AppendedCopies | MFCApplication1/MainView.cpp:53-69 | in an appending box the copies stand one after the other in record order |
| MainWindow.SortedCopies | MFCApplication1/MainView.cpp:53-69 | in a sorting box the list is sorted at all times |
| MainWindow.LeakedIsAnswered | MFCApplication1/MainView.cpp:240-252 | over every run of the window the strings lost are the confirmed clicks in all its dialogs, at most one per requester and opening |
| MainWindow.ChatWindows | MFCApplication1/MainView.cpp:253-308 | over every interleaving: targets distinct, in order of first click, confirmed friends only, and no more than there are |

## Left out

- Expander.ConsumptionLaw: an argument that ends in a percent sign is covered by bounds only (ConsumptionBounds, SurelyFinishes) when some text has an 's' directly behind a mark: whether the two meet depends on the texts of all earlier steps. For one argument per mark FinishesIff covers every call.
- TwoPassFaults.PlaceholderLeftIff: arguments that hold or begin a mark can leave one whatever the positions, and shorter ones move the later edits behind their marks; such calls are covered as far as they return or throw (OutcomeIff).
- TwoPassFaults.RendersIff: for arguments that can be told apart from the text before them; others can give the right text by coincidence (ExampleCoincidence). For the positions edited, StaleIsTrueIff is exact for all arguments.
- Handshake.RunIsAccounted: strings are followed by address, `FriendInfo` objects by number only, because each is freed, if at all, by the handler that made it.
- Alignment.AsWrittenIsAlignedIff: two different names must not tie in the box's comparison; a box with ties may show either first. Repeated names are allowed, and a run with equal names may line up although a different string object was erased.
- The server and its database, and the client transport: replies are arbitrary inputs, and a message is an attempt to send.
- Login, signup, chat texts, painting, message maps and data exchange: user interface without logic of its own.
- The 128-character text buffer of the accept and reject handlers, and the return value of `InitListView`, which the source leaves unset when there are requests.
- Memory other than the request strings and `FriendInfo` objects: conversion buffers and the dialog's controls, which the source does not free either.
- Code-page conversion, struct layouts and `sizeof` values: names are compared as they are, and the announced data size is not part of a header.
- The variadic calling convention: arguments are a sequence, and reading past its end is an outcome.
- The destructor of `MainView`, which clears a vector while it iterates over it.

# Verification of swirl's self-contained machinery

swirl is a scrolling fork of the sway compositor. Most of it drives wlroots, cairo and json-c, but a number of
components decide their behaviour by themselves: the i3-IPC transport, the list with its in-place stable sort, the
text engine behind commands and configuration files, key bindings and their translation to keycodes, the session
lock, the fork's column layout, gestures, and the scroll wheel of the bar. This project models these components in
Dafny and proves what they promise.

Code that works by changing things step by step is modelled by classes, arrays and loops, each proved against a
specification on values; what the component is for is then proved about that specification, for all inputs and over
all runs. `dafny verify dfyconfig.toml` checks everything.

| files | component |
|---|---|
| `Lists.dfy` | the growable list and its rotation-based merge sort |
| `IpcProtocol.dfy`, `IpcServer.dfy`, `IpcBroadcast.dfy`, `IpcClientSide.dfy` | the message format, the server's reader and write queue, event broadcast, the client and the end-to-end theorem |
| `StringOps.dfy`, `CStrings.dfy`, `CommandLine.dfy`, `WorkspaceCommand.dfy` | splitting and joining arguments, editing C strings in place, the way from an IPC payload to the arguments of a command, the bar's workspace command |
| `Variables.dfy`, `ConfigLine.dfy`, `Include.dfy` | variable substitution and `set`, the pipeline of a config line, included files |
| `BindingTable.dfy`, `Translation.dfy`, `Bindings.dfy` | binding tables as maps, translation and layout changes, the same on heap objects |
| `LockSpec.dfy`, `SessionLock.dfy` | the session lock as a state machine, and its handlers |
| `ColumnResize.dfy`, `RowResize.dfy`, `Columns.dfy` | resizing windows in a column and columns in a row; release, take and move |
| `Gestures.dfy`, `Scrolling.dfy` | gesture names, the bar's scroll wheel |
| `Common.dfy` | what several of these share |

## What the proofs brought to light

- The write buffer limit of 4,000,000 bytes is in effect 2 MiB, because the size doubles from 128
  (`IpcServer.BufferSizeWithinLimit`).
- `ipc_recv_response` treats the end of the stream as fatal inside a header but not inside a payload, where the loop
  goes on asking (`IpcClientSide.ResponseReader.ReceiveResponse`: without an error only a header is aborted).
- `execute_command` strips quotes but does not unescape, and it substitutes variables in what the bar sends. So the
  workspace command is given another name than the bar meant if that has a double quote, a backslash or a newline, or
  a dollar that is doubled or starts a defined name (`WorkspaceCommand.NameSeenByCompositor`,
  `WorkspaceCommand.DoubledDollarArrivesSingle`).
- In `argsep` an escape is not over with the character behind the backslash. Two double quotes in a name therefore end
  the quotes around it, and a later semicolon, comma or newline starts another command
  (`WorkspaceCommand.TwoQuotesThenDelimiter`).
- A configuration is validated by the errors of the main file alone: `include` never fails
  (`Include.Config.ReadConfig`), and a file with errors is read again by each include that finds it finished
  (`Include.FailingFileIsReadAgain`).
- A `--to-code` binding that cannot be translated, and a plain binding of the same keysym, overwrite each other: the
  flag is not among those that keep bindings apart (`Translation.UntranslatableBindingsClash`).
- A row's resize knows 32 other columns at most: a column behind those never gives way or grows
  (`RowResize.LateColumnsKeepTheirWidth`).
- The notches of a mouse wheel go the way of all that is on the wheel: what a touchpad has left there can turn them
  around, or swallow them (`Scrolling.NotchesOfTurn`).
- Only the first dollar of the name given to `set` is protected: another one that is doubled or starts a defined name is
  substituted, and another variable is defined (`ConfigLine.SetKeepsItsName`, `ConfigLine.InnerDollarIsReplaced`).

## Model

| member | source | states |
|---|---|---|
| `Lists.List.Resize` | common/list.c:18-23 | growing the array leaves the contents alone and leaves room for one more item |
| `Lists.List.Add` | common/list.c:33-36 | the item goes behind the old contents |
| `Lists.List.Insert` | common/list.c:38-43 | the item goes in at the index; the rest of the list moves up unchanged |
| `Lists.List.Del` | common/list.c:45-48 | just the one item goes |
| `Lists.List.Swap` | common/list.c:79-83 | the two items change places, also when they are the same |
| `Lists.List.Rotate` | common/list.c:99-108 | the shifting loop moves one item in front of another and keeps all others in order |
| `Lists.MergeRotation` | common/list.c:110-127 | one rotation of the merge loop extends the merged part, keeps both remaining runs sorted, and is stable, for every total preorder |
| `Lists.List.InplaceMerge` | common/list.c:110-127 | two adjacent sorted runs become one sorted run, stably, nothing outside moves, and the loop ends although all three of its indices move |
| `Lists.List.InplaceSort` | common/list.c:129-142 | any part of the list becomes sorted, stably, and nothing outside it moves |
| `Lists.List.StableSort` | common/list.c:144-148 | for every total preorder the list ends sorted, with each class of equal items in its old order, and as the only list with these two properties |
| `Lists.StableSortIsUnique` | common/list.c:144-148 | sortedness and the order within each class of equal items determine a list: there is only one stable sorting |
| `Lists.RotationIsStable` | common/list.c:99-108 | moving an item in front of strictly greater ones changes no class of equal items |
| `IpcProtocol.HeaderRoundTrip` | sway/ipc-server.c:1093-1097 | magic, length and type read back from a header as they were written, whatever follows it |
| `IpcProtocol.HeaderIsDetermined` | common/ipc-client.c:128-132 | a block that starts with the magic is the header of its own length and type |
| `IpcProtocol.WireFormat` | sway/ipc-server.c:1093-1122 | byte by byte: the letters i3-ipc, the length and the type with their low bytes first, then the payload |
| `IpcProtocol.DecodeStops` | sway/ipc-server.c:225-268 | decoding stops only at a tail too short for its header or its payload, or at one that does not start with those letters, and only the last is malformed |
| `IpcProtocol.DecodeEncode` | sway/ipc-server.c:1093-1122 | frames written one after another decode to just these frames, and what follows them decodes as if it stood alone |
| `IpcProtocol.DecodeRebuilds` | sway/ipc-server.c:204-268 | decoded frames and the undecoded rest make up every byte of any stream |
| `IpcProtocol.PrefixEncodings` | common/ipc-client.c:79-121 | if a stream of whole frames starts with whole frames, these are the first frames of it |
| `IpcServer.BufferSizeWithinLimit` | sway/ipc-server.c:1099-1109 | because the size doubles from 128, the limit of 4,000,000 bytes is in effect a limit of 2 MiB |
| `IpcServer.FitsExactly` | sway/ipc-server.c:1099-1109 | a message fits exactly if some doubling of 128 bytes within 4,000,000 has room for it, that is, below 2 MiB |
| `IpcServer.IpcClient.constructor` | sway/ipc-server.c:182-200 | a new client has an empty queue in a buffer of 128 bytes, and satisfies the invariant |
| `IpcServer.IpcClient.HandleReadable` | sway/ipc-server.c:204-268 | keeps the reader invariant (all bytes that arrived are the dispatched frames, at most one pending header, and the unread bytes); at most one frame is dispatched; without a fault it makes progress unless it waits for more bytes, and it drops the client only on a malformed stream; the payload read that follows a header at once may fail by itself |
| `IpcServer.IpcClient.HandleHeader` | sway/ipc-server.c:243-267 | the rest of a readable event once a header is read keeps the reader invariant; without a fault only a malformed header ends the connection, and then everything in front of it has been dispatched |
| `IpcServer.IpcClient.HandleCommand` | sway/ipc-server.c:672-695 | exactly the payload is consumed, and the frame dispatched is the one that was announced |
| `IpcServer.WaitingReader` | sway/ipc-server.c:225-239 | a reader that waits has dispatched everything that the stream so far decodes to |
| `IpcServer.DecodeMonotone` | sway/ipc-server.c:250-254 | more bytes never take a frame back, and bytes behind a malformed header are never looked at |
| `IpcServer.RunReader` | sway/ipc-server.c:204-268 | over every interleaving of arrivals and readable events, with faults: what is dispatched is a prefix of the decoding of the bytes sent |
| `IpcServer.RunReaderToEnd` | sway/ipc-server.c:204-268 | independence of fragmentation: the same bytes in any pieces, once drained, dispatch exactly their decoding, and the connection survives exactly if no header is malformed |
| `IpcServer.IpcClient.Drain` | sway/ipc-server.c:204-268 | repeated readable events end, with everything dispatched that can be |
| `IpcServer.IpcClient.QueueReply` | sway/ipc-server.c:1089-1131 | the message is appended whole exactly if queued bytes, header and payload together are less than 2,097,152, and otherwise the client is dropped with its queue untouched; the queue stays strictly shorter than its buffer, the buffer within 4,000,000 bytes, and the writable event is armed exactly when bytes are queued |
| `IpcServer.IpcClient.ReserveSize` | sway/ipc-server.c:1099-1102 | the doubling loop ends with room for the message, and stays within the limit exactly if the message fits |
| `IpcServer.IpcClient.HandleWritable` | sway/ipc-server.c:544-581 | bytes written and bytes queued together stay the encoding of everything accepted, for every partial write; the writable event is disarmed when the queue is empty |
| `IpcBroadcast.Server.SendEvent` | sway/ipc-server.c:280-296 | although clients are removed from the list during the walk, every subscribed client at the start is sent the event exactly once if it fits and is dropped if not, others are sent nothing, and those still connected are the list, in their old order |
| `IpcBroadcast.Server.Walk` | sway/ipc-server.c:280-296 | the loop over the shrinking list visits each of the clients that it started with once, and ends |
| `IpcBroadcast.Server.Disconnect` | sway/ipc-server.c:583-603 | just this client leaves the list |
| `IpcBroadcast.Server.SendReply` | sway/ipc-server.c:1089-1109 | a client that cannot take a message is disconnected and off the list; otherwise the list is unchanged |
| `IpcBroadcast.NextList` | sway/ipc-server.c:282-294 | stepping the index back after a removal keeps it at the next client of the original list |
| `IpcBroadcast.KeptSeparate` | sway/ipc-server.c:596-599 | the clients left after any removals still share no buffer |
| `IpcBroadcast.KeptInOrder` | sway/ipc-server.c:280-296 | the clients left stand in their old order |
| `IpcBroadcast.EventsHaveTheirBits` | include/ipc.h:4 | different event types have different subscription bits, the low seven bits of the type |
| `IpcClientSide.NextHeader` | common/ipc-client.c:82-97 | after whole messages, the next header's worth of bytes names the length and type of the next message queued |
| `IpcClientSide.NextPayload` | common/ipc-client.c:104-115 | and as many bytes as it announces are the payload of that message |
| `IpcClientSide.ResponseReader.ReceiveResponse` | common/ipc-client.c:79-121 | whatever recv() returns, each turn is heard as specified: a read takes at least a byte of what is there and waits if nothing is, an error aborts, and the end of the stream aborts exactly inside a header; a call that returns has taken exactly the next message, and one that waits has used up its turns |
| `IpcClientSide.Converse` | common/ipc-client.c:79-121 | end to end, over every interleaving of queueing, partial writes and partial receives: the conversation ends as its turns say, the messages decoded are exactly the whole ones among the bytes taken and a prefix, in order and unaltered, of those queued; nothing in between is lost while the connection lives, and once all is read the messages decoded are all that any step queued |
| `IpcClientSide.ConverseToEnd` | common/ipc-client.c:79-121 | the other half: any conversation that has not ended, left to go on without faults, brings over every message that any step queued, whatever number of bytes each write and each recv() takes |
| `IpcClientSide.ConverseInHealth` | sway/ipc-server.c:1089-1131 | so if no fault comes and all that is queued stays below 2 MiB, everything queued arrives |
| `IpcClientSide.HealthyStays` | sway/ipc-server.c:1099-1109 | for such a conversation stays connected and queues everything |
| `IpcClientSide.WhatAborts` | common/ipc-client.c:84-97 | a recv() that fails ends the conversation, and else only the end of the stream does, while a header is read |
| `IpcClientSide.ServedQueues` | sway/ipc-server.c:1089-1131 | what is queued for a client is what the steps queue, in order, up to the one that drops the client, and all of it as long as the client is connected |
| `IpcClientSide.DrainReads` | common/ipc-client.c:82-115 | each turn in which the compositor writes what it can and recv() does not fail takes at least a byte over, it may be many, until all is read; then turns are spent waiting, and none ends the conversation |
| `IpcClientSide.RoomAt` | common/ipc-client.c:82-115 | behind whole messages and a part of the next, recv() is asked for what is missing of the header, or of the payload once the header is there |
| `IpcClientSide.Serve` | sway/ipc-server.c:544-581 | the compositor's loop over queueing and writable events refines these steps, bytes included |
| `StringOps.TokensRebuild` | common/stringop.c:92-143 | for every text, also with quotes or brackets left open or a trailing backslash: the tokens with the whitespace between them are the text |
| `StringOps.TokensOfWeave` | common/stringop.c:92-143 | a text that can be read as tokens with whitespace between them is split into just these tokens |
| `StringOps.SplitArgs` | common/stringop.c:92-143 | the one-pass loop with its four flags ends on every text and returns those tokens |
| `StringOps.TokensByUnits` | common/stringop.c:92-143 | the same tokens without the flags: a word is made of characters, characters behind a backslash, quotations and criteria in brackets, and ends at the first whitespace that is none of their parts, or with the text if one is not finished |
| `StringOps.FinishedIsClosed` | common/stringop.c:92-143 | a text leaves nothing open exactly if it is made of such units, all finished |
| `StringOps.WrappedIsToken` | common/stringop.c:105-118 | whatever blanks a text holds, in brackets or in quotes of either kind it is one token |
| `StringOps.JoinConcat` | common/stringop.c:236-253 | joined lists are joined by one space |
| `StringOps.SplitOfJoin` | common/stringop.c:236-253 | joining tokens with single spaces and splitting again gives back the tokens |
| `StringOps.SplitJoinSplit` | sway/commands.c:419-422 | the join and split detour of config_command changes no text that holds a token |
| `CStrings.StripQuotes` | common/stringop.c:26-50 | the in-place loop leaves the C string without its unprotected quotes |
| `CStrings.StripKeepsTheRest` | common/stringop.c:26-50 | quote stripping drops nothing but quotes |
| `CStrings.StrippedIsUnwrapped` | common/stringop.c:26-50 | by units: a character behind a backslash stays with it, a quotation loses its two quotes and nothing else, and one that is not finished loses its first |
| `CStrings.Unescape` | common/stringop.c:152-234 | the two in-place passes leave the specified C string, with the early stops at `\0` and after hexadecimal digits, and return its length, or where the early stop was |
| `CStrings.UnescapedOne` | common/stringop.c:158-204 | each escape of one letter, quote or backslash stands for its character, `\\0` ends the text, and an unknown one stays as it is |
| `CStrings.UnescapedHex` | common/stringop.c:205-219 | `\\x` with two decimal digits stands for the character of that number in base 16, and nothing behind it is unescaped |
| `CStrings.UnescapedShortHex` | common/stringop.c:205-219 | with one digit it stands for that number, and with none it is dropped |
| `CStrings.UnescapedBehind` | common/stringop.c:157-233 | text in front of the first backslash is kept |
| `CStrings.ShiftOverNuls` | common/stringop.c:223-233 | the second pass closes the gaps and keeps all other characters in order |
| `CStrings.WriteHex` | common/stringop.c:205-219 | zero, one or two digits after `\x` give the character and the gap that the source makes of them |
| `CStrings.JoinArgs` | common/stringop.c:236-253 | the computed size is filled exactly: the joined arguments and a terminator |
| `WorkspaceCommand.BuildCommand` | swaybar/ipc.c:21-42 | the two-pass escaping fills the buffer of the computed size exactly, whatever the name holds |
| `WorkspaceCommand.CommandTokens` | swaybar/ipc.c:34-42 | the command splits into two arguments for every name, with blanks, brackets, quotes and backslashes |
| `WorkspaceCommand.StripQuoted` | common/stringop.c:26-50 | quote stripping takes off just the two outer quotes of the second one |
| `WorkspaceCommand.UnescapeEscaped` | common/stringop.c:152-234 | unescaping undoes the escaping of every name that a C string can hold |
| `WorkspaceCommand.NameRoundTrip` | swaybar/ipc.c:21-45 | building, splitting, stripping and unescaping gives back every name |
| `WorkspaceCommand.NameSeenByCompositor` | sway/commands.c:246-301 | what reaches the workspace command: the line is left whole exactly if argsep does not cut it, and the name is then the escaped one after substitution; it is the name the bar meant if that has no quote, backslash or newline and no dollar that is doubled or starts a defined name, and only then if no defined value is empty or starts with a dollar |
| `WorkspaceCommand.LeftWholeIfUncut` | common/stringop.c:267-312 | which names argsep leaves whole, read off the name: inside the quotes every second double quote of a run of quotes, backslashes and delimiters ends or opens the string, and each semicolon, comma and rejoined newline has to be in a string or behind an odd number of double quotes of its run |
| `WorkspaceCommand.SimpleIsUncut` | common/stringop.c:267-312 | a name without double quote and backslash is not cut, whatever delimiters and newlines it holds |
| `WorkspaceCommand.NoDelimiterIsUncut` | common/stringop.c:267-312 | nor is one without newline, semicolon and comma, whatever quotes it holds |
| `WorkspaceCommand.TwoQuotesThenDelimiter` | common/stringop.c:267-312 | two double quotes in a row with a semicolon, comma or newline behind them, after anything without quotes and backslashes, do get the name cut, whatever follows |
| `WorkspaceCommand.OthersChange` | sway/commands.c:279-301 | a name with a double quote, a backslash or a newline never arrives as it was, if no defined value is empty or starts with a dollar |
| `WorkspaceCommand.DoubledDollarArrivesSingle` | sway/commands.c:298-301 | in a name without quote, backslash and newline a doubled dollar arrives single: what is in front of it, if it passes unchanged, stays, and what is behind it is expanded alone |
| `CommandLine.JoinLines` | sway/ipc-server.c:698-708 | the in-place strtok loop puts a semicolon for the first newline of each run, but not for a run at the very start |
| `CommandLine.SplitAtDelimiter` | common/stringop.c:255-312 | the loop with its two positions and three flags cuts where the one-pass walk over the flags does, and skips delimiters in front of a command |
| `CommandLine.NoDelimiter` | common/stringop.c:267-312 | a text without delimiters is never cut, whatever quotes and backslashes it holds |
| `CommandLine.DelimiterCuts` | common/stringop.c:267-312 | a semicolon or comma behind text without quotes and backslashes cuts there, and one at the start is skipped |
| `CommandLine.QuotesShield` | common/stringop.c:271-283 | in quotes of either kind nothing is cut |
| `CommandLine.BackslashShields` | common/stringop.c:272-301 | a backslash shields all delimiters up to the next other character |
| `CommandLine.CommandArguments` | sway/commands.c:279-301 | argument by argument: quotes come off where one starts the argument, except for exec, exec_always and mode, then variables are substituted, except in the name that `set` is given; nothing is unescaped |
| `Variables.DoVarReplacement` | sway/config.c:916-966 | the loop that rebuilds the string in place ends for every table and equals one left-to-right pass that never reads a substituted value again |
| `Variables.ExpandForgets` | sway/config.c:957-964 | that pass never looks back, but for the two characters that can protect the next dollar |
| `Variables.UntouchedPasses` | sway/config.c:919-964 | a part of a text passes unchanged if no unprotected dollar of it is doubled or starts a defined name |
| `Variables.TouchedChanges` | sway/config.c:919-964 | and only then, if no value is empty or starts with a dollar |
| `Variables.DoubledDollar` | sway/config.c:927-934 | a doubled dollar anywhere in a text comes out single: what is in front of it stays, and what is behind it is expanded as if it stood alone |
| `Variables.VariableInText` | sway/config.c:935-959 | a defined name anywhere in a text gives way to its value, which is not expanded again, and what is behind it is expanded as if it stood alone |
| `Variables.EscapedDollar` | sway/config.c:920-926 | a dollar behind just one backslash stays, and what follows is expanded as if it stood alone |
| `Variables.FirstDoubledDollar` | sway/config.c:927-934 | behind none, or two, a doubled one comes out single |
| `Variables.NamedDollar` | sway/config.c:935-959 | one that starts defined names gives way, with the longest of them, to its value |
| `Variables.UnnamedDollar` | sway/config.c:960-963 | and any other stays |
| `Variables.LongestMatch` | sway/config.c:936-938 | each dollar takes the longest defined name that stands there, or is left alone if there is none |
| `Variables.OrderDoesNotMatter` | sway/commands/set.c:10-15 | substitution depends on the definitions alone: qsort may leave names of equal length in any order |
| `Variables.SortingIsTable` | sway/commands/set.c:54-55 | sorting after an append keeps names unique, longest first, and the definitions as they were |
| `Variables.Config.CmdSet` | sway/commands/set.c:26-59 | `set` is map update on the definitions, keeps the sorted table, and has the two error cases |
| `ConfigLine.ConfigCommand` | sway/commands.c:359-447 | the mutable pipeline of splitting, variable lookup, joining, substitution, splitting and cleaning comes to the specified outcome; where an argument ends in a lone backslash, so that unescaping reads behind its terminator, that is the outcome |
| `ConfigLine.PlainLine` | sway/commands.c:410-422 | the detour through a joined text changes nothing on a line without dollars |
| `ConfigLine.LineWithoutDollars` | sway/commands.c:359-447 | such a line in full: block starts and ends, unknown commands, and otherwise each argument unescaped, without its quotes for an ordinary handler |
| `ConfigLine.CommandInVariable` | sway/commands.c:382-393 | a variable in the place of the command is put in and the line is split again |
| `ConfigLine.SetKeepsItsName` | sway/commands.c:410-417 | the name that `set` defines survives substitution if no unprotected dollar of it but the first is doubled or starts a defined name, and only then if no defined value is empty or starts with a dollar |
| `ConfigLine.SetLine` | sway/commands.c:359-447 | so a `set` line reaches the command with the name it was written with under the same condition |
| `ConfigLine.InnerDollarIsReplaced` | sway/commands.c:410-417 | with `$b` defined as `v`, the line `set $a$b x` reaches `set` with the name `$av` |
| `ConfigLine.OwnValueLeavesNoTrace` | sway/config.c:957-964 | why the other direction speaks of values: a variable whose value is its own name is put in without a trace |
| `Include.EveryIncludeOnce` | sway/config.c:581-650 | over every include graph, cyclic or not: the chain never holds a path twice and starts with the main file, the main file is read once, a file that loads is read at most once, is in the chain, and is read if a file that was read includes it |
| `Include.NothingReadTwice` | sway/config.c:581-620 | outside validation the chain is just what was read, in that order, and nothing is read twice |
| `Include.ChainIsReachable` | sway/config.c:581-650 | outside validation the chain is one of the sets that hold the main file, whatever readable files this includes by the path it was given by, and whatever readable files the others of the set include, and it is the least of these sets |
| `Include.ChainIsWhatIsIncluded` | sway/config.c:581-650 | in full: what a line of a file in the chain expands to and can be read is in the chain, and nothing else but the main file is |
| `Include.FailingFileIsReadAgain` | sway/config.c:581-620 | when validating, on every disk and in every state: an include of a file with an error of its own reads it just once and leaves it out of the chain, so that a later include reads it again, unless it is in the chain already because it is being read: then nothing happens |
| `Include.FileStep` | sway/config.c:607-620 | the chain before an include is a prefix of the chain after it, so that deleting by index takes out exactly the file that failed, and the files that it pulled in stay |
| `Include.ReadLinesWithin` | sway/config.c:622-650 | only files that are included get read |
| `Include.Config.LoadIncludeConfig` | sway/config.c:581-620 | ends on every graph, restores the current path, and succeeds exactly if the file is not in the chain and loads |
| `Include.Config.LoadConfig` | sway/config.c:441-470 | answers as specified: directories and unreadable files fail, errors inside fail only a validation |
| `Include.Config.ReadConfig` | sway/config.c:758-895 | fails exactly on an error in its own lines: what becomes of included files does not count |
| `Include.Config.LoadMainConfig` | sway/config.c:472-534 | the whole load, refined to the specification that the theorems above are about |
| `BindingTable.KeyOrderIsForgotten` | sway/commands/bind.c:107-111 | two key combinations have equal sorted keys if and only if they hold the same keys, in whatever order these were typed |
| `BindingTable.SortIsForced` | sway/commands/bind.c:466-467 | any sorting of the keys gives the same list, so that qsort may work as it likes |
| `BindingTable.UpsertUpdatesMap` | sway/commands/bind.c:266-278 | insert-or-replace keeps combinations distinct and is map update, on every combination |
| `BindingTable.RemoveShrinksMap` | sway/commands/bind.c:304-321 | removal keeps combinations distinct and takes just one combination out of the map |
| `BindingTable.SideBySide` | sway/commands/bind.c:64-105 | two bindings that differ in one of these live side by side, and of two that do not the second replaces the first, whatever their other flags |
| `Bindings.BindingKeyCompare` | sway/commands/bind.c:64-105 | the comparison holds exactly if input, type, group, modifiers, keys and each of the six conflict flags agree |
| `Bindings.BindingUpsert` | sway/commands/bind.c:266-278 | replaces the first equal binding in its place and returns it, or appends |
| `Bindings.BindingAdd` | sway/commands/bind.c:280-302 | the overwritten binding is freed, and no binding in the list is freed or there twice |
| `Bindings.BindingRemove` | sway/commands/bind.c:304-321 | finds the binding exactly if the map has its combination; both objects are freed, and neither is left in the list |
| `Bindings.GetKeycodeForKeysym` | sway/commands/bind.c:668-698 | counts all keycodes for a keysym, never matching NoSymbol |
| `Bindings.TranslateBinding` | sway/commands/bind.c:700-751 | the in-place translation is the specified one, and reports failure exactly if some keysym has not just one keycode |
| `Translation.TranslateKeepsOrigin` | sway/commands/bind.c:700-751 | the keys that the user wrote stay recoverable, all else of the binding stays as it was, and a failed translation restores it exactly |
| `Translation.KeysymsBecomeCodes` | sway/commands/bind.c:700-751 | if each keysym is on one key of the layout only, the binding gets the codes of those keys, sorted |
| `Translation.OthersStay` | sway/commands/bind.c:700-751 | it stays as it was if a keysym is on no key or on several, and so does every binding without the flag or of a button |
| `Translation.OnlyTheLastLayoutCounts` | sway/commands/bind.c:711-715 | what a layout makes of a binding does not depend on the layouts before it |
| `Translation.LayoutRun` | sway/commands/bind.c:700-751 | over every run of layout changes a binding is the last layout's translation of what was written, and exactly what was written if that fails |
| `Translation.LastWins` | sway/config.c:987-1007 | after a retranslation each combination that some binding now has holds the last such binding, none twice, each in the table of its kind |
| `Translation.RelayoutIsLast` | sway/config.c:1021-1035 | for both tables of a mode, the keysym table first |
| `Translation.RelayoutLoses` | sway/config.c:1021-1035 | a layout change loses a binding if and only if it brings two of them to the same combination |
| `Translation.UntranslatableBindingsClash` | sway/commands/bind.c:77-83 | a plain keysym binding and a `--to-code` one for the same keys live side by side on every layout that can translate the keys, and on every layout that cannot the second takes the place of the first |
| `Translation.RelayoutAgain` | sway/config.c:1021-1035 | the same layout again changes nothing, up to the order of the tables |
| `Translation.BindUpdates` | sway/commands/bind.c:466-490 | on a mode with its three tables, binding is map update on the translated combination, and every binding stays up to date with the layout |
| `Translation.KeysInAnyOrder` | sway/commands/bind.c:466-490 | a second binding of the same keys in another order replaces the first |
| `Translation.BoundIsFound` | sway/commands/bind.c:466-490 | a binding without the code flag is in the list of its kind as it was typed, its keys in ascending order |
| `Translation.UnbindRemoves` | sway/commands/bind.c:466-486 | unbinding removes the translated combination and nothing else |
| `Translation.RunKeepsOrigins` | sway/commands/bind.c:466-490 | over every run of bind, unbind and layout changes: undoing the translation of any binding gives what some bind command typed |
| `Translation.Run` | sway/commands/bind.c:466-490 | every state of such a run has distinct combinations, each in the table of its type, translated for the current layout |
| `Bindings.TranslateBindingList` | sway/config.c:987-1007 | no binding is freed before it has been translated, and no freed one is met again |
| `Bindings.SwayMode.Bind` | sway/commands/bind.c:466-490 | on heap objects, refines the specification; afterwards every object of the mode is in one list once and not freed |
| `Bindings.SwayMode.Unbind` | sway/commands/bind.c:466-486 | the same, and succeeds exactly if the combination is bound |
| `Bindings.SwayMode.Retranslate` | sway/config.c:1021-1035 | the same, for the two new lists of a mode, which hold no binding that was not in the old ones |
| `Bindings.TranslateKeysyms` | sway/config.c:1009-1035 | the loop over all modes retranslates each of them by the new layout, and none gets into the way of another; without a translation state every mode stays as it is |
| `LockSpec.StepIsSafe` | sway/lock.c:133-310 | every event keeps the invariant: one lock output for each output, no surface twice, outputs red exactly when the lock is abandoned, focus on a mapped lock surface if there is one and on nothing otherwise |
| `LockSpec.RunIsSafe` | sway/lock.c:42-310 | so does every run of events |
| `LockSpec.LiveLockStays` | sway/lock.c:261-274 | a live lock cannot be taken over: only its unlock, its abandonment or the end of the manager ends it, over every run |
| `LockSpec.AbandonedLockStays` | sway/lock.c:245-274 | an abandoned lock is never unlocked and stays until another client locks, over every run |
| `LockSpec.WhatUnlocks` | sway/lock.c:195-243 | exactly two events unlock a session, and a lock changes hands only after it was abandoned |
| `LockSpec.LockingLocks` | sway/lock.c:261-310 | locking an unlocked or abandoned session leaves a live lock of that client with one lock output for each output, without surfaces and focus; a live lock is left alone |
| `LockSpec.InputWhileLocked` | sway/input/seat.c:1067-1073 | from then on, over every run without an unlock and the end of the manager, input is for exactly the attached lock surfaces |
| `LockSpec.FocusMayHaveInput` | sway/input/seat.c:1067-1073 | the focused surface of a locked session may have input |
| `LockSpec.RefocusedRight` | sway/lock.c:42-61 | after a surface is out of the question, focus is right for the remaining ones |
| `SessionLock.SwayLock.RefocusOutput` | sway/lock.c:42-61 | the search loop moves focus, only from the surface that goes away, to the first other mapped one |
| `SessionLock.SwayLock.DestroyOutput` | sway/lock.c:133-144 | focus moves on before the output leaves the list |
| `SessionLock.Server.HandleSessionLock` | sway/lock.c:261-310 | a live lock is kept and the new one refused; otherwise the session ends up with a live lock of the client that covers every output, has no surface attached and no focus |
| `SessionLock.Server.HandleUnlock` | sway/lock.c:215-243 | only a live lock can be unlocked; the session is then without a lock, and its outputs are as before |
| `SessionLock.Server.HandleAbandon` | sway/lock.c:245-259 | refines the event: all outputs turn red, the lock stays |
| `SessionLock.Server.HandleNewSurface` | sway/lock.c:104-131 | the surface is attached to its output, unmapped, and focus does not move |
| `SessionLock.Server.HandleSurfaceMap` | sway/lock.c:63-69 | refines the event: the first mapped surface gets the focus |
| `SessionLock.Server.HandleSurfaceDestroy` | sway/lock.c:71-80 | the surface is detached from its output and from no other; focus moves only if it was on it, to a mapped surface if there is one and else to none |
| `SessionLock.Server.HandleNewOutput` | sway/desktop/output.c:602-604 | refines the event: a new output is covered at once, in the colour of the lock |
| `SessionLock.Server.HandleOutputDestroy` | sway/lock.c:146-150 | the output and its lock output go together, and all others stay covered |
| `SessionLock.Server.HandleSessionLockDestroy` | sway/lock.c:312-322 | at shutdown any lock goes, live or abandoned |
| `SessionLock.Server.DestroyLock` | sway/lock.c:195-213 | the teardown loop takes all outputs off and leaves no lock |
| `SessionLock.Server.IsInputAllowed` | sway/lock.c:338-348 | input is allowed to exactly the attached lock surfaces while locked, and to all otherwise |
| `ColumnResize.BuildOrder` | sway/commands/resize.c:240-265 | the order array holds every sibling once, the one at a dragged edge first and the others farthest first, and 64 places are enough for 65 windows |
| `ColumnResize.AbsorbConserves` | sway/commands/resize.c:267-279 | whatever leaves the remainder leaves the column, with no assumption on the heights, and no other window changes |
| `ColumnResize.ClampIsNearest` | sway/tree/container.c:1358-1368 | the size in the interval from floor to cap that is nearest to the desired one, where a cap below the floor does not count |
| `ColumnResize.AbsorbTakes` | sway/commands/resize.c:267-279 | taking stops only when all siblings together can give no more, and nobody grows or goes below the floor |
| `ColumnResize.AbsorbTakesInOrder` | sway/commands/resize.c:267-279 | a sibling is at its floor before the next one is asked |
| `ColumnResize.AbsorbGives` | sway/commands/resize.c:267-279 | giving stops only at the caps, and nobody shrinks |
| `ColumnResize.RoomOfSiblings` | sway/commands/resize.c:248-279 | the visiting order leaves no sibling's room unused |
| `ColumnResize.GrowTotal` | sway/commands/resize.c:224-290 | growing ends with a total of exactly min(total + delta, usable) unless the floors alone do not fit, siblings between their floors and old heights, and the focused window between its old and its requested height |
| `ColumnResize.ShrinkTotal` | sway/commands/resize.c:224-290 | shrinking keeps the total up to what the capped siblings cannot take, and nobody else shrinks |
| `ColumnResize.ResizeKeeps` | sway/commands/resize.c:173-296 | one resize, whatever it asks for, leaves every window between its bounds and the column no fuller than it was or than fits |
| `ColumnResize.RunFits` | sway/commands/resize.c:173-296 | over every run of resizes, by any windows and edges: each window stays between its bounds, a column that fits goes on fitting, and a full one of windows without a largest height stays exactly full |
| `ColumnResize.RunFitsWithGaps` | sway/commands/resize.c:186-190 | the same with the gaps counted against the column's height |
| `ColumnResize.Column.TiledResizeVertical` | sway/commands/resize.c:173-296 | the early returns change nothing, and otherwise the loops leave exactly the heights that the theorems are about; with the gaps, a column that fits its height goes on fitting, and a growth ends at exactly min(total + delta, height), unless the floors and the gaps alone are higher |
| `ColumnResize.Column.HandOut` | sway/commands/resize.c:267-290 | the in-place loop and the pull-back refine the recursive specification |
| `RowResize.ResizeGrows` | sway/commands/resize.c:103-165 | growing a column, by an edge or by keys: the row's total, gaps included, ends at exactly min(taken + delta, available) unless the floors of the columns involved do not let it; only the columns that are asked give way, and no other changes |
| `RowResize.ResizeShrinks` | sway/commands/resize.c:103-165 | shrinking it: the columns that are asked take all that their caps allow, the rest of the row stays free, and no other column changes |
| `RowResize.KeysFill` | sway/commands/resize.c:151-165 | with keys and up to 33 columns the row's total depends on the floors of all columns alone, whichever column has the focus |
| `RowResize.FartherFirst` | sway/tree/viewport.c:316-343 | a column gives way only when every candidate farther from the focus, or as far to the right of it, is at its floor |
| `RowResize.LateColumnsKeepTheirWidth` | sway/commands/resize.c:103-107 | a column behind the first 32 others never changes, for the array of candidates holds no more |
| `RowResize.RowRunFits` | sway/commands/resize.c:69-171 | over every run of resizes, by edges and keys in any mixture: each column stays between its bounds, and a row that fits goes on fitting |
| `RowResize.RowTotal` | sway/commands/resize.c:69-171 | in widths and gaps: what fits goes on fitting, an edge drag changes only its column and the neighbour on that side, and with keys and up to 33 columns a growth ends at exactly what is asked for, the available width or the floors of all |
| `RowResize.EdgeDragTotal` | sway/commands/resize.c:103-165 | an edge drag takes what does not fit from that neighbour down to its floor, and the column gives back the rest |
| `RowResize.FarthestFirstIsSorted` | sway/tree/viewport.c:316-343 | the order in which keys ask the candidates: by distance from the focus downwards, on the right first |
| `RowResize.FarthestIsFirst` | sway/tree/viewport.c:319-332 | picking the farthest unused candidate again and again yields that order |
| `RowResize.FindFarthest` | sway/tree/viewport.c:320-329 | the search finds the farthest unused candidate, of two the right one, although it compares a column's number with an array index, and finds none only when all are used |
| `RowResize.AbsorbFarthest` | sway/tree/viewport.c:316-343 | the loop with its marks refines sharing in that order |
| `RowResize.ViewportScanVisible` | sway/tree/viewport.c:288-314 | the scan collects the other columns, at most 32, in order, and adds up all widths and the gaps between them |
| `RowResize.WhichCandidates` | sway/tree/viewport.c:308-312 | a column is a candidate exactly if it is another one and among the first 32 of those |
| `RowResize.AskNeighbour` | sway/commands/resize.c:127-150 | an edge drag asks the neighbour on that side exactly if it is a candidate, and nobody else |
| `RowResize.TiledResizeHorizontal` | sway/commands/resize.c:69-171 | the resize itself, in place: the early returns change nothing, and otherwise scan, sharing and pull-back leave exactly the widths that the theorems are about |
| `Columns.ReleaseKeepsOrder` | sway/commands/release.c:25-56 | splitting a column keeps all windows in order |
| `Columns.TakeKeepsOrder` | sway/commands/take.c:24-43 | so does joining |
| `Columns.TakeUndoesRelease` | sway/commands/take.c:24-43 | taking back what was just released restores the workspace |
| `Columns.ReleaseUndoesTake` | sway/commands/release.c:25-56 | releasing after the old last window restores what a take has joined, if and only if the neighbour was a column that had windows |
| `Columns.MoveSwapsNeighbours` | sway/commands/move.c:332-360 | a move exchanges two neighbouring windows or two neighbouring columns as wholes, and all others keep their places |
| `Columns.MoveBack` | sway/commands/move.c:332-360 | the opposite move undoes it |
| `Columns.RunConserves` | sway/commands/move.c:332-360 | over every run of releases, takes and moves no window is lost or made, and without moves none changes its place in the order |
| `Columns.Workspace.MoveDown` | sway/commands/release.c:49-53 | the descending loop leaves the lower windows in the new column, in order |
| `Columns.Workspace.Release` | sway/commands/release.c:11-67 | the windows below the focused one form a new column to the right; a column that is not tiled, or whose last window or none has the focus, stays as it is |
| `Columns.Workspace.Take` | sway/commands/take.c:11-50 | the column takes in all windows of its right neighbour, or that neighbour if it is a window itself, and that is gone from the row |
| `Columns.Workspace.Move` | sway/commands/move.c:290-360 | a tiled container moves exactly if there is a neighbour on that side; a floating one and one that is fullscreen on all outputs stay; one that is fullscreen on its workspace goes to the next output's workspace exactly if there is one |
| `Gestures.SplitString` | common/stringop.c:79-90 | the token loop returns the runs between the delimiters |
| `Gestures.SplitConcat` | common/stringop.c:79-90 | a delimiter separates tokens wherever it stands |
| `Gestures.GestureParse` | common/gesture.c:14-90 | the parser with its optional parts comes to the specified result: the gesture as far as it is filled in, and the problem with the text that the message quotes |
| `Gestures.PartsOfGesture` | common/gesture.c:14-90 | part by part: one of three types, then a finger count of one digit from 1 to 9, then directions; either may be left out, and each error names the text it is about |
| `Gestures.DirectionNames` | common/gesture.c:58-83 | eight names stand for the eight low bits, `any` for none, and no other text for a direction |
| `Gestures.GestureToString` | common/gesture.c:133-169 | the bit loop prints the specified text, with `any` for the empty set |
| `Gestures.PrintedText` | common/gesture.c:92-169 | type, decimal number of fingers and directions with colons between them, and `any` for no direction |
| `Gestures.DecimalIsValue` | common/gesture.c:160-169 | the number is printed in base 10, without a zero in front |
| `Gestures.NamesInOrder` | common/gesture.c:133-158 | the names of the set bits come lowest first, `unknown` for one that has none |
| `Gestures.PrintedParses` | common/gesture.c:14-169 | a printed gesture parses back to itself if and only if it has a type, one to nine fingers and no unnamed direction; every other one is rejected |
| `Scrolling.AfterSteps` | swaybar/input.c:196-237 | any number of steps one way: counted round the row with wrap_scroll, stopped at its end without |
| `Scrolling.NothingScrolledIsLost` | swaybar/input.c:271-337 | over every steady run of events the amount scrolled is 10000 for each click and what is left on the wheel, at most 10000 either way after a frame |
| `Scrolling.PauseClears` | swaybar/input.c:300-308 | a pause of more than 1000 milliseconds clears the wheel, on a clock that starts again at 2^32 |
| `Scrolling.NotchesCount` | swaybar/input.c:287-357 | with a mouse wheel, from rest: over any number of turns each notch is one click its way, whatever the pauses |
| `Scrolling.NotchesOfTurn` | swaybar/input.c:287-357 | a turn makes as many clicks as notches and clears the wheel, and they go its way if and only if what is on the wheel with it does |
| `Scrolling.Bar.WorkspaceNext` | swaybar/input.c:196-237 | exactly one workspace stays visible, and it is the neighbour, or the other end with wrap_scroll |
| `Scrolling.Bar.ProcessContinuousScroll` | swaybar/input.c:271-285 | the loop ends; each click that nothing consumes moves one workspace on |
| `Scrolling.Bar.Scroll` | swaybar/input.c:196-285 | when nothing consumes clicks: value = 10000 * clicks + leftover, and the visible workspace is (start + clicks) mod n with wrap_scroll or clamped to the row without |
| `Scrolling.Bar.HandleAxis` | swaybar/input.c:287-309 | a pause puts the wheel back, on a 32-bit clock that wraps |
| `Scrolling.Bar.HandleAxisDiscrete` | swaybar/input.c:350-357 | notches add up regardless of direction, as the run theorems take them |
| `Scrolling.Bar.HandleFrame` | swaybar/input.c:311-337 | notches and continuous scrolling of one axis, as the run theorem takes them |

## Left out

- Sockets, files and the event loop: a socket is the bytes that went in and counts chosen by the environment, a recv()
  that blocks is a turn in which nothing is taken, and the file system is a finite map from paths to lines together with
  what each include pattern expands to. shutdown, close and the reuse of descriptors are not modelled.
- Allocation failure, logging, and the bodies of commands and IPC requests (tree JSON, outputs, marks).
- Integer widths, except for the message fields and the scroll clock: list capacities, the `int` that FIONREAD fills,
  the 32-bit size in the bar's workspace command and the axis value are unbounded numbers here.
- CStrings.Unescape: is not stated for a text whose last backslash is not itself escaped, because there the source
  reads on behind the terminator.
- ConfigLine.ConfigCommand: promises no arguments where one of them is unescaped and ends in such a backslash.
- ConfigLine.SetKeepsItsName: its "only then" half is for values that are not empty and do not start with a dollar;
  OwnValueLeavesNoTrace shows a name that survives although it is substituted. SetLine, Variables.TouchedChanges and
  WorkspaceCommand.NameSeenByCompositor have the same restriction.
- Scrolling.Bar.Scroll: is stated for clicks that neither a hotspot nor a binding takes; ProcessContinuousScroll counts
  the others.
- LockSpec.StepIsSafe: takes from the protocol library that an output gets no second lock surface and that a lock surface
  is unmapped only by its destruction.
- Bindings.TranslateKeysyms: a translation state is a layout, which each mode holds for itself; what later commands do
  after it could not be created, the switch and gesture bindings, and the parsing of key names and options are not
  modelled.
- Include.Config.ReadConfig: reading does not stop early, as it does when no memory is left for a line or the main file
  has grown since its size was taken.
- Columns.Workspace.Release: knows columns by their place and windows by number, and a column's windows are a sequence
  inside its entry; object identity, widths and heights, focus and fullscreen changes of containers are not captured.
- Columns.Workspace.Take: is stated for a column that takes, because a window outside any column has no list that
  could take its neighbour in.
- ColumnResize.BuildOrder: is stated for at most 65 windows, and ColumnResize.Column.TiledResizeVertical with it; for
  more of them the source's array of 64 is too small.
- ColumnResize: lengths are reals, so rounding is not captured; the fractions kept beside the heights and the arranging
  that follows are left out.
- RowResize: lengths are reals here too, and the fractions kept beside the widths are left out. The rest of the viewport
  code (filling the space of a column that goes) is not part of this model.
- Columns.Workspace.Move: what happens to a container that goes to another output's workspace is not modelled.
- Gestures.GestureToString: has no limit of 255 fingers; tracking and matching gestures are left out.
- qsort and strtok: they are library functions; the models promise some sorting and no more of the one, and spell out
  the tokens of the other.
- Criteria in brackets in front of a command, and the commands of a line behind the first one.
- The setters of single options, rendering, swaynag, swaymsg and the tables searched by bsearch would only add easy
  members.

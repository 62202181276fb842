# linknx: a verified model of its state machines

linknx is a home automation server for KNX installations. This project models the
parts of it that compute something hard, and proves what those parts promise:

- **The calendar search** (`Calendar`, `Resolver`, `ResolverProof`, `ResolverClimb`,
  `Schedule`, `ScheduleProof`, `ScheduleLimits`, `ScheduleCollisions`, `DateTimes`,
  `PeriodicTasks`). `findNext` looks for the next time that meets a partial
  specification by bumping free fields, projecting the result onto the calendar and
  starting over. The main result is `ScheduleProof.FindNextIsNext`: it returns the
  earliest matching minute after the start. `ScheduleCollisions.AlwaysNextIff` says for
  which specifications it does so from every start time: exactly those that do not
  *collide*. `ScheduleLimits.SearchesClimb` shows that each recursive call of the search
  starts from lexicographically larger fields. On top of it, `PeriodicTasks` shows when a timer starts switched on and
  that a running timer misses no occurrence.
- **The timer queue** (`TimerQueue`): sorted, first come first served, drained of
  exactly what is due.
- **Base64** (`Base64`, `Base64Coders`): the resumable encoder and decoder are
  independent of how their input is cut, write the text of RFC 4648 in lines of 72, and
  undo each other.
- **XML** (`XmlText`, `XmlTextProof`, `XmlTree`, `XmlTreeProof`, `XmlLayout`, `XmlReferences`,
  `XmlReparse`, `XmlStreams`, `XmlDom`, `XmlAttributeRing`): parsing what an element
  streams out gives the element back, and so does parsing it in any other layout; every
  tree the parser returns can be streamed out and read back; the child lists and the attribute ring are edited as sequences are.
- **KNX objects** (`KnxFloat`, `ObjectIndex`, `ObjectController`): the two-octet float,
  and the group address index, which agrees with a scan of all objects after every run
  of successful calls.
- **Rules and clients** (`TimeCounter`, `VarStrings`, `Durations`, `MessageFraming`).

Code of the original that changes things in place is modelled by classes and methods
with loops. Each of these is tied to a function on values, and the properties are proved
about the functions.

## What the code does that a reader may not expect

- A specification *collides* (`ScheduleProof.Collides`) when the time of day can be over
  on its own day and the carry into the next day changes a free field before it meets a
  given one that it contradicts. There are two shapes: December without a year (with the
  day free, or the 31st at a free hour), and a day of the month without month or hour
  that is the last day of some month it can fall in. In the first the search never ends;
  in the second it skips an occurrence. `CollisionFails` gives a start time for each.
  A free hour with a given minute is harmless otherwise.
- A search without a year whose exception days filter out everything never ends; it
  ends in every other case (`EndsIff`).
- A timer that is switched on inside the duration of an occurrence with no occurrence
  after it starts *off* and is never scheduled again (`FirstSchedule`, second clause).
- A string with "&#x" in it never reads back from its escape (`EscapeReadIff`).
- The exponent of the two-octet float fits for -67141631 to 67108863 hundredths. The
  negative side reaches further than the smallest value the format can hold, because
  rounding cuts toward zero (`ExponentFitsIff`).
- An object configured with a finer precision than the bus format carries can change its
  value when it hears its own message (`EchoUnchangedIff` says exactly when).
- A listener address 0 is entered in the address index and never taken out
  (`WithdrawnIff`).
- A delete that fails because the object is in use, and a re-import that fails because
  its type or id is refused, take the object out of the index and leave it registered.
  For addresses other than 0, dispatch is then a scan of the other objects; it is a scan
  of all objects if and only if no such lost object names the address (`OnWrite`). Runs
  of successful calls lose none (`SuccessLosesNone`).
- The decoder's stream loop gives blocks of N characters a buffer of N cells, which is
  enough from every decoder state if and only if N is at least 4 (`DecodeBufferFits`).
- A delay of 0 puts a timer back at the present time (`RescheduledLaterIff`).
- A failed read of a client connection drops what was read during the call
  (`ReadConserves`, second case).
- The walk over attributes by `Next` ends at the first blank attribute
  (`WalkVisitsAllIff`).

## Model

| member | source | states |
|---|---|---|
| Calendar.LexLessIsEarlier | src/timermanager.cpp:103-123 | broken-down times compare as their instants do |
| Calendar.FieldsOfProper | src/timermanager.cpp:103-123 | `localtime` gives a proper date and time that `mktime` takes back to the same instant |
| Calendar.MktimeKeepsProper | src/timermanager.cpp:103-123 | normalising leaves fields unchanged if and only if they name an existing date and time |
| Calendar.YearStartCounts | src/timermanager.cpp:103-123 | years begin where 365 days a year and the Gregorian count of leap years put them |
| Calendar.MonthTable | src/timermanager.cpp:103-123 | the lengths of the months and where they begin |
| Calendar.WeekdaysFollow | src/timermanager.cpp:243-256 | the first of January 1970 is a Thursday, and weekdays go on by one a day |
| DateTimes.DateTime.SetField | src/timermanager.cpp:45-63 | in-place update equals the value function: -1 frees a field, a value is stored, lower free fields are reset, and the field is fixed when asked and not overruled by weekdays |
| ResolverClimb.SetFieldIs | src/timermanager.cpp:45-63 | what setting a field does to every field, to the free fields and next to a weekday constraint |
| DateTimes.DateTime.ResetFieldIfFree | src/timermanager.cpp:268-279 | resets a field and those below it, as far as free, to their lowest values |
| DateTimes.DateTime.TryIncreaseClosestGreaterFreeField | src/timermanager.cpp:75-93 | increments the closest free field at or above the given one, or reports that there is none |
| DateTimes.DateTime.IncreaseField | src/timermanager.cpp:95-101 | one more, with the lower free fields reset |
| DateTimes.DateTime.ProjectOnActualCalendar | src/timermanager.cpp:125-158 | replaces the fields by the calendar's up to the first given field that disagrees, and classifies the outcome in four ways |
| DateTimes.DateTime.TryResolveWithoutWeekdays | src/timermanager.cpp:203-241 | one pass that moves the free fields up to the current time |
| DateTimes.DateTime.TryResolveUnprojected | src/timermanager.cpp:183-198 | the loop over days of the week equals its recursive specification |
| DateTimes.DateTime.TryResolve | src/timermanager.cpp:160-181 | the recursion in place equals its specification |
| ResolverProof.AdvanceKeeps | src/timermanager.cpp:203-241 | one pass keeps the lower bound on every match, or nothing matches |
| ResolverProof.FinishWeekdays | src/timermanager.cpp:183-198 | at most six bumps of the day reach an allowed weekday (seven when the hour ran past midnight) |
| ResolverProof.UnprojectedKeeps | src/timermanager.cpp:183-241 | the loop ends with a candidate that no match precedes, or nothing matches |
| ResolverProof.ProjectKeeps | src/timermanager.cpp:125-158 | a projection keeps the lower bound and each of its four outcomes means what the caller takes it for |
| ResolverProof.TryResolveKeeps | src/timermanager.cpp:160-181 | the search ends within eight calls; resolved means the earliest match, unresolved that the day has none, impossible that nothing matches |
| ResolverClimb.GivenFieldsStay | src/timermanager.cpp:45-101 | no run of the search changes a given field or the weekdays, from any state |
| ResolverClimb.ProjectionClimbs | src/timermanager.cpp:125-158 | one projection that changes fields makes them lexicographically larger, and none makes them smaller |
| ResolverClimb.CallsClimb | src/timermanager.cpp:160-181 | every recursive call of `tryResolve` starts from lexicographically larger fields than each call before it, including what the weekday loop moves between them |
| ResolverClimb.CallsAreMade | src/timermanager.cpp:160-181 | the calls compared are those of the recursion: each has the outcome of the first |
| ScheduleLimits.SearchesClimb | src/timermanager.cpp:863-900 | both searches of every call of `findNext` climb in this way |
| ScheduleProof.OneStep | src/timermanager.cpp:827-947 | one call of `findNext` ends with the next occurrence, or goes on from a later start that skips none |
| ScheduleProof.EndsWithin | src/timermanager.cpp:827-947 | the recursion over days ends within a number of calls given by the distance to a match |
| ScheduleProof.FindNextIsNext | src/timermanager.cpp:827-947 | for a specification that some calendar time meets and that does not collide, `findNext` ends and returns the earliest matching minute after the start (plus the offset), or that there is none; the error returns are not reached |
| ScheduleProof.ValidIff | src/timermanager.cpp:422-473 | a specification is accepted if and only if some calendar time has every given field (next to a full date, the time of day is not looked at) |
| ScheduleProof.ExceptionIff | src/timermanager.cpp:1094-1114 | a time is an exception if and only if some exception day has every given field of its date |
| ScheduleProof.ShiftedLater | src/timermanager.cpp:919-932 | for every offset, negative ones included, a result is an occurrence shifted by the offset and later than the start |
| ScheduleProof.OccursAgain | src/timermanager.cpp:422-473 | a valid specification without a year has matches arbitrarily late |
| ScheduleLimits.OneOutcome | src/timermanager.cpp:827-933 | `findNext` has at most one outcome, whatever bound on the calls is used to state it |
| ScheduleLimits.EndsIff | src/timermanager.cpp:827-947 | it ends if and only if a qualifying time is left or the year is given |
| ScheduleLimits.OutcomeAfter | src/timermanager.cpp:895-933 | without weekdays and exception days, whatever it returns, colliding specifications included, is later than the start before the offset is added |
| ScheduleCollisions.AlwaysNextIff | src/timermanager.cpp:125-241 | the next occurrence is found from every start time if and only if the specification does not collide |
| ScheduleCollisions.DecemberFails | src/timermanager.cpp:142-147 | in the December shape the search from the last minute of the year does not end within any number of calls |
| ScheduleCollisions.DayFails | src/timermanager.cpp:142-147 | in the day shape the search from the end of that day's month does not give the next occurrence |
| ScheduleCollisions.CollisionFails | src/timermanager.cpp:125-241 | every colliding specification has a start time with a wrong outcome or none |
| PeriodicTasks.FindsException | src/timermanager.cpp:1094-1114 | whether some exception day matches the date of a time |
| PeriodicTasks.FindNextTime | src/timermanager.cpp:827-933 | the imperative search returns what the specification of `findNext` returns, 0 for its failures |
| PeriodicTasks.DeliverTime | src/timermanager.cpp:902-933 | the end of the search: exception days send it on to the next day, the offset is added, and a time not after the start is passed over |
| PeriodicTasks.GoToNextDayAndFindNextTime | src/timermanager.cpp:935-947 | the search goes on from 23:59 of the day reached |
| PeriodicTasks.PeriodicTask.OnTimer | src/timermanager.cpp:712-723 | the value toggles and listeners are told; with no duration it is told on and off again |
| PeriodicTasks.PeriodicTask.Reschedule | src/timermanager.cpp:731-800 | the new value and the next event, in every combination of settings |
| PeriodicTasks.PlainNext | src/timermanager.cpp:827-933 | on specifications that do not collide the result is the first occurrence, and 0 exactly when there is none |
| PeriodicTasks.InvalidIsNever | src/timermanager.cpp:827-845 | a specification that is not accepted, or none at all, is never scheduled |
| PeriodicTasks.FirstSchedule | src/timermanager.cpp:735-764 | the first schedule is on until the end of the occurrence under way if that ends before the next one; otherwise off until the next; and off for good when there is no next |
| PeriodicTasks.FirstScheduleOff | src/timermanager.cpp:735-764 | with no occurrence under way the first schedule is off until the next |
| PeriodicTasks.StartsOnIff | src/timermanager.cpp:735-764 | with occurrences more than d apart and one to come: on if and only if one lies in (now-d, now], and then due at its end |
| PeriodicTasks.OnThenOff | src/timermanager.cpp:712-800 | from an occurrence, on for d and then off until the very next occurrence: none is missed |
| PeriodicTasks.OnEnds | src/timermanager.cpp:766-772 | a timer that is on goes off after its duration, or at the first occurrence of `until` after now, never if there is none |
| PeriodicTasks.OffEnds | src/timermanager.cpp:773-780 | a timer that is off goes on after exactly its delay, or at the first occurrence of `at`, never if there is none |
| PeriodicTasks.FirstUntil | src/timermanager.cpp:735-764 | a first schedule with `until` is on if and only if there is a start to come and the first `until`, if any, precedes it; it is due at the one that decides |
| PeriodicTasks.FirstDelays | src/timermanager.cpp:735-764 | a first schedule with two delays is on if and only if the duration is the shorter, and due at the end of the shorter |
| PeriodicTasks.OnUntil | src/timermanager.cpp:712-781 | from its start a timer is on until the very next `until`, and then off until the very next start |
| PeriodicTasks.RescheduledLaterIff | src/timermanager.cpp:731-800 | for all settings, rescheduling puts a timer task back later than now or not at all, if and only if the delay that decides is not 0 |
| TimerQueue.InsertKeepsOrder | src/timermanager.cpp:339-349 | a new entry goes behind all entries that are not later and before all later ones |
| TimerQueue.InsertAdds | src/timermanager.cpp:339-349 | insertion adds exactly the entry |
| TimerQueue.InsertKeepsDistinct | src/timermanager.cpp:339-349 | a queue without duplicates stays so |
| TimerQueue.WithoutKeepsOrder | src/timermanager.cpp:351-354 | removal keeps order and distinctness |
| TimerQueue.WithoutInserted | src/timermanager.cpp:339-354 | adding and removing leaves the queue as it was |
| TimerQueue.PutBackAdds | src/timermanager.cpp:782-799 | a task is put back, at its next time, if and only if that is not 0 |
| TimerQueue.IdleCheck | src/timermanager.cpp:289-297 | a check with nothing due leaves the queue alone, and tells an empty queue from a waiting one |
| TimerQueue.CheckConserves | src/timermanager.cpp:289-315 | every entry that is not taken stays, as often; the one taken is put back at its next time unless that is 0 |
| TimerQueue.CheckKeepsQueue | src/timermanager.cpp:289-315 | a check keeps the queue sorted and free of duplicates |
| TimerQueue.CheckTakesOne | src/timermanager.cpp:289-315 | a check with something due takes the head, runs it if less than a minute late, and puts it back behind everything due |
| TimerQueue.DrainTakesAllDue | src/timermanager.cpp:289-337 | repeated checks end and take exactly the due entries, once each and in order, running exactly those later than now-60 |
| TimerQueue.DrainLeavesLater | src/timermanager.cpp:289-337 | what is left is sorted and lies in the future |
| TimerQueue.DrainKeepsOthers | src/timermanager.cpp:289-337 | what is left are the entries that were not due and the due tasks at their next times |
| TimerQueue.TimerManager.AddTask | src/timermanager.cpp:339-349 | the list of task objects changes as insertion in the queue |
| TimerQueue.TimerManager.RemoveTask | src/timermanager.cpp:351-354 | the list loses exactly the task |
| TimerQueue.TimerManager.CheckTaskList | src/timermanager.cpp:289-315 | the list, the return value and the runs of every task are those of a check of the queue |
| Base64.EncodesByAlphabet | b64/src/cencode.c:19-24 | six bits are encoded as their character of the alphabet of RFC 4648, any other value as `=` |
| Base64.DecodesByAlphabet | b64/src/cdecode.c:10-17 | a character is decoded to its place in that alphabet, and to nothing if it has none |
| Base64.SextetsAreShifts | b64/src/cencode.c:41-81 | the four six-bit values of three bytes |
| Base64.PlainAt | b64/src/cencode.c:87-108 | the text has four characters for every three bytes begun: one for every six bits begun, zero bits at the end, and `=` for the rest |
| Base64.EncodeBlockSplits | b64/src/cencode.c:26-85 | two encoder calls equal one on the joined bytes, from any state |
| Base64.EncoderWritesLines | b64/src/cencode.c:26-108 | from a group boundary the text is that of RFC 4648 in lines |
| Base64.LinesBreak | b64/src/cencode.c:75-80 | newlines stand exactly after every 72 characters and at the end |
| Base64.StrippedLines | b64/src/cencode.c:26-108 | without newlines the text is that of section 4 of RFC 4648 |
| Base64.EncodedText | b64/src/cencode.c:26-108 | both of these for every cut of the bytes into blocks |
| Base64.IgnoresOthers | b64/src/cdecode.c:38-46 | characters outside the alphabet change nothing |
| Base64.DecodeBlockSplits | b64/src/cdecode.c:25-87 | two decoder calls equal one on the joined text, from any state |
| Base64.DecodeLines | b64/src/cdecode.c:25-87 | decoding the text of a message gives the message |
| Base64.RoundTrip | b64/src/cdecode.c:25-87 | decoding gives the bytes back for every cut of the bytes and every cut of the text |
| Base64.BlockLength | b64/src/cencode.c:26-85 | the number of characters a block writes and the counters it leaves |
| Base64.BufferFits | b64/include/b64/encode.h:44-71 | buffers of 2N hold every block of N bytes and the end from any reachable state if and only if N is at least 2 |
| Base64.DecodedLength | b64/src/cdecode.c:25-87 | the number of bytes a block decodes to: one per code character but the first of each group |
| Base64.DecodedFits | b64/src/cdecode.c:25-87 | never more bytes than characters, so that a buffer of one cell more is enough |
| Base64.DecodeBufferFits | b64/include/b64/decode.h:39-62 | buffers of N cells hold what every block of N characters decodes to, and the byte begun, if and only if N is at least 4 |
| Base64Coders.EncodeFragment | b64/src/cencode.c:41-82 | one step of the coroutine writes the characters of a byte and saves the state |
| Base64Coders.EncodeBuffer | b64/src/cencode.c:26-85 | the loop fills the buffer with the text of the block, leaves the rest of it, and saves the state |
| Base64Coders.EncodeBufferEnd | b64/src/cencode.c:87-108 | the end of the last group and the newline |
| Base64Coders.DecodeFragment | b64/src/cdecode.c:37-82 | one step of the decoder writes the finished byte and begins the next in the cell after it |
| Base64Coders.DecodeBuffer | b64/src/cdecode.c:25-87 | the loop writes the decoded bytes and saves step and partial byte, with one spare cell |
| Base64Coders.EncodeStream | b64/include/b64/encode.h:44-71 | the stream loop over reused buffers writes the lines of the whole input for every N of at least 2, within its 2N buffer |
| Base64Coders.DecodeStream | b64/include/b64/decode.h:39-62 | the stream loop over reused buffers decodes the whole input for every N of at least 4; the lines of the encoder give back the bytes |
| XmlTextProof.EscapeThenRead | ticpp/tinyxmlparser.cpp:571-632 | reading an escaped string up to its end tag gives the string and stops just past the tag |
| XmlTextProof.ReadNoLonger | ticpp/tinyxmlparser.cpp:435-528 | what reads back is never longer than the string, and shorter if it has a hexadecimal reference |
| XmlTextProof.EscapeReadIff | ticpp/tinyxml.cpp:61-142 | a byte string reads back from its escape if and only if it has no "&#x" |
| XmlTreeProof.ParseAttributesOut | ticpp/tinyxmlparser.cpp:1070-1149 | the attributes of an element read back in order |
| XmlTreeProof.ParseCDataOut | ticpp/tinyxmlparser.cpp:1471-1495 | a CDATA section without "]]>" reads back |
| XmlTreeProof.ReadChildrenOut | ticpp/tinyxmlparser.cpp:1152-1221 | the children of an element read back in order, up to its end tag |
| XmlTreeProof.ParseElementOut | ticpp/tinyxmlparser.cpp:1032-1149 | parsing what any proper tree streams out gives the tree and stops just past it |
| XmlLayout.SpaceIs | ticpp/tinyxml.h:271-274 | white space is tab, line feed, vertical tab, form feed, carriage return and blank |
| XmlLayout.NameCharsAre | ticpp/tinyxmlparser.cpp:405-433 | the characters that begin a name and those that may follow |
| XmlLayout.AttributesAreRead | ticpp/tinyxmlparser.cpp:1336-1411 | attributes read with any white space before them and around `=`, in double, single or no quotes |
| XmlLayout.ChildrenAreRead | ticpp/tinyxmlparser.cpp:1152-1221 | children read with any white space between them where no text stands |
| XmlLayout.LaidElementIsRead | ticpp/tinyxmlparser.cpp:1032-1149 | however a proper tree is laid out, the parser gives the tree and stops just past it |
| XmlLayout.StreamedIsLaid | ticpp/tinyxml.cpp:906-934 | what the writer streams out is one such layout: one blank before each attribute and before the end of an empty element, and double quotes unless the value has one |
| XmlLayout.BlankIs | ticpp/tinyxmlparser.cpp:1592-1598 | a text is blank if and only if it is white space |
| XmlLayout.EqualsIsNeeded | ticpp/tinyxmlparser.cpp:1336-1371 | an attribute name without `=` is an error |
| XmlLayout.QuoteInBareValue | ticpp/tinyxmlparser.cpp:1388-1410 | a quote within an unquoted value is an error |
| XmlLayout.NameIsNeeded | ticpp/tinyxmlparser.cpp:1055-1064 | a tag without a name is an error |
| XmlLayout.BracketIsNeeded | ticpp/tinyxmlparser.cpp:1083-1093 | a slash that no bracket follows is an error |
| XmlLayout.EndTagMustMatch | ticpp/tinyxmlparser.cpp:1094-1119 | an end tag with another name is an error |
| XmlReferences.EntitiesAre | ticpp/tinyxmlparser.cpp:511-527 | what the five named references stand for |
| XmlReferences.DigitValuesAre | ticpp/tinyxmlparser.cpp:462-501 | the values of decimal and hexadecimal digits, in either case |
| XmlReferences.DecimalReference | ticpp/tinyxmlparser.cpp:477-501 | a decimal reference with any number of digits stands for its number modulo 256 |
| XmlReferences.HexReference | ticpp/tinyxmlparser.cpp:447-475 | the same for a hexadecimal one |
| XmlReferences.UnfinishedReference | ticpp/tinyxmlparser.cpp:447-484 | a numeric reference without a semicolon is an error |
| XmlReferences.WrongDigit | ticpp/tinyxmlparser.cpp:455-501 | so is one with something else than a digit before its semicolon |
| XmlReferences.NoReference | ticpp/tinyxmlparser.cpp:523-527 | an ampersand that begins no reference is dropped |
| XmlReferences.ControlIsWritten | ticpp/tinyxml.cpp:117-131 | a control character is written with two hexadecimal digits in upper case |
| XmlReferences.SpecialIsWritten | ticpp/tinyxml.cpp:92-116 | the five characters with a meaning are written as their references |
| XmlReferences.EscapedIsSafe | ticpp/tinyxml.cpp:61-142 | an escaped string without "&#x" has no markup and no control character in it but the ampersands of references |
| XmlReferences.OthersAreKept | ticpp/tinyxml.cpp:61-142 | a string without such characters is written as it is |
| XmlReparse.ElementIsFormed | ticpp/tinyxmlparser.cpp:1032-1221 | every tree the parser returns has valid and distinct names, no blank or adjacent texts, and no CDATA with its own end |
| XmlReparse.ParsedReadsBack | ticpp/tinyxmlparser.cpp:1032-1221 | a tree returned for any C string reads back from what it streams out, if no escaped value in it has "&#x" |
| XmlStreams.PutString | ticpp/tinyxml.cpp:61-142 | the loop appends the escape of the string |
| XmlStreams.PassReference | ticpp/tinyxml.cpp:71-92 | the inner loop copies a hexadecimal reference through its semicolon or to the end |
| XmlStreams.WriteAttribute | ticpp/tinyxml.cpp:1436-1452 | name and escaped value, quoted with the quote the value does not hold |
| XmlStreams.WriteNode | ticpp/tinyxml.cpp:906-934 | the text of an element, or of a text node |
| XmlStreams.EqualsTag | ticpp/tinyxmlparser.cpp:531-569 | whether a tag stands at a position |
| XmlStreams.SkipWhiteSpace | ticpp/tinyxmlparser.cpp:321-369 | the position after white space |
| XmlStreams.ReadNameAt | ticpp/tinyxmlparser.cpp:405-433 | the longest name at a position |
| XmlStreams.ReadEntity | ticpp/tinyxmlparser.cpp:435-528 | the character of an entity, of a numeric reference, or the ampersand itself |
| XmlStreams.ReadNumeric | ticpp/tinyxmlparser.cpp:442-508 | a character by its decimal or hexadecimal number, summed from the right in 32 and 64 bits |
| XmlStreams.ReadChar | ticpp/tinyxml.h:311-345 | one character or entity and the position after it |
| XmlStreams.ReadTextAt | ticpp/tinyxmlparser.cpp:571-632 | the text up to the end tag, entities resolved, and the position just past the tag |
| XmlStreams.ParseAttributeAt | ticpp/tinyxmlparser.cpp:1336-1411 | name, equals sign and value in any of the three quotings |
| XmlStreams.ParseTextAt | ticpp/tinyxmlparser.cpp:1459-1507 | a text node or a CDATA section |
| XmlStreams.ParseElementAt | ticpp/tinyxmlparser.cpp:1032-1149 | an element with attributes and content, or an error |
| XmlStreams.ParseAttributesAt | ticpp/tinyxmlparser.cpp:1070-1149 | the attribute loop, with its three endings and the error for a repeated name |
| XmlStreams.ReadValueAt | ticpp/tinyxmlparser.cpp:1152-1221 | the child loop: blank text is dropped, the end tag stops it |
| XmlStreams.ParseNodeAt | ticpp/tinyxmlparser.cpp:813-900 | the kind of node that begins at a position, parsed |
| XmlDom.LinkedNode.Spliced | ticpp/tinyxml.cpp:213-367 | rewiring two neighbours across a gap, with a node in it or none, keeps a well-formed doubly linked list |
| XmlDom.LinkedNode.LinkEndChild | ticpp/tinyxml.cpp:213-237 | keeps the list linked and appends; a document is refused |
| XmlDom.LinkedNode.InsertBeforeChild | ticpp/tinyxml.cpp:255-285 | keeps the list linked and inserts a copy before the child, or changes nothing, exactly in the three refused cases |
| XmlDom.LinkedNode.InsertAfterChild | ticpp/tinyxml.cpp:288-318 | the same after the child |
| XmlDom.LinkedNode.ReplaceChild | ticpp/tinyxml.cpp:321-345 | keeps the list linked and puts a copy in the place of the child |
| XmlDom.LinkedNode.RemoveChild | ticpp/tinyxml.cpp:348-367 | keeps the list linked and takes the child out |
| XmlDom.InsertedBeforeAt | ticpp/tinyxml.cpp:255-285 | the new node stands directly before the child, and all others in order |
| XmlDom.InsertedAfterAt | ticpp/tinyxml.cpp:288-318 | the new node stands directly after the child, and all others in order |
| XmlDom.ReplacedAt | ticpp/tinyxml.cpp:321-345 | the new node stands where the child stood, and all others where they were |
| XmlDom.RemovedAt | ticpp/tinyxml.cpp:348-367 | all others stay in order |
| XmlDom.LinkedNode.FirstChild | ticpp/tinyxml.cpp:369-379 | the first child with a value, or none |
| XmlAttributeRing.AttributeNode.Next | ticpp/tinyxml.cpp:1395-1402 | the following node unless it is blank |
| XmlAttributeRing.AttributeSet.Add | ticpp/tinyxml.cpp:1782-1791 | keeps the ring closed through the sentinel, appends, and keeps the names distinct |
| XmlAttributeRing.AttributeSet.Remove | ticpp/tinyxml.cpp:1793-1809 | keeps the ring closed and takes the attribute out; one that is not stored changes nothing |
| XmlAttributeRing.AttributeSet.Find | ticpp/tinyxml.cpp:1811-1821 | the first attribute with a name, or none |
| XmlAttributeRing.AttributeSet.First | ticpp/tinyxml.h:848-849 | the first attribute, none for an empty ring |
| XmlAttributeRing.AttributeSet.Visit | ticpp/tinyxml.cpp:910-915 | a loop from `First` by `Next` visits the walk of the stored attributes |
| XmlAttributeRing.WalkVisitsAllIff | ticpp/tinyxml.cpp:1395-1402 | the walk is all of them if and only if none after the first is blank |
| XmlAttributeRing.WalkStopsAt | ticpp/tinyxml.cpp:1395-1402 | otherwise it ends just before the first blank one |
| KnxFloat.RoundsTowardZero | src/objectcontroller.cpp:1582-1605 | rounding gives the representable value nearest to the value on the side of zero, and loses less than 2^ex |
| KnxFloat.RepresentableIff | src/objectcontroller.cpp:1582-1605 | rounding leaves exactly the representable values unchanged |
| KnxFloat.RoundedTwice | src/objectcontroller.cpp:1582-1605 | rounding is idempotent |
| KnxFloat.RoundedMonotone | src/objectcontroller.cpp:1582-1605 | rounding is monotone |
| KnxFloat.OctetsCarry | src/objectcontroller.cpp:1644-1692 | the two octets carry mantissa, sign and the exponent modulo 16 |
| KnxFloat.OctetsAre | src/objectcontroller.cpp:1663-1692 | the two octets are, from the left, the sign, four bits of the exponent and eleven of the mantissa |
| KnxFloat.ExponentFitsIff | src/objectcontroller.cpp:1663-1692 | the exponent fits its four bits exactly for -67141631 to 67108863 hundredths |
| KnxFloat.SentIsRoundedIff | src/objectcontroller.cpp:1644-1692 | decoding the sent octets gives the rounded value if and only if the exponent fits |
| KnxFloat.SnappedIsNearest | src/objectcontroller.cpp:1609-1613 | a positive precision rounds to the nearest multiple, halves away from zero |
| KnxFloat.NegativePrecision | src/objectcontroller.cpp:1609-1613 | a negative precision cuts one unit more toward zero |
| KnxFloat.EchoUnchangedIff | src/objectcontroller.cpp:1607-1661 | hearing its own value leaves an object unchanged: always without a precision, else if and only if half a unit covers the loss |
| KnxFloat.RoundToKnxPrecision | src/objectcontroller.cpp:1582-1605 | the shift loops compute the rounded value |
| KnxFloat.ValueObject.SetValue | src/objectcontroller.cpp:1607-1623 | what is stored, and whether it changed |
| KnxFloat.ValueObject.DoWrite | src/objectcontroller.cpp:1644-1661 | a message of four octets stores the decoded value and tells listeners of a change; a short one does nothing |
| KnxFloat.ValueObject.DoSend | src/objectcontroller.cpp:1663-1692 | the four octets of the message |
| ObjectIndex.InsertAllCounts | src/objectcontroller.cpp:3215-3225 | entering an object adds each pair as often as its addresses name it and keeps the index sorted |
| ObjectIndex.EraseAllCounts | src/objectcontroller.cpp:3227-3255 | withdrawing removes exactly the pairs of the object at its non-zero addresses |
| ObjectIndex.RangeOfInserted | src/objectcontroller.cpp:3163-3174 | objects with one address are told in the order they were entered |
| ObjectIndex.RangeOfErased | src/objectcontroller.cpp:3227-3240 | withdrawing an object leaves the others with its address in order |
| ObjectIndex.AddressesCount | src/objectcontroller.cpp:3215-3225 | an object is entered once under its own address and as often under an address as its listeners name it |
| ObjectIndex.WithdrawnIff | src/objectcontroller.cpp:3215-3255 | entering and withdrawing restores the counts if and only if no listener address is 0 |
| ObjectController.Controller.RemoveObjectFromAddressMap | src/objectcontroller.cpp:3227-3240 | the erasing loop removes exactly the pairs of the object with the address |
| ObjectController.Controller.AddObject | src/objectcontroller.cpp:3215-3225 | keeps index and objects in agreement; a known id is refused and changes nothing |
| ObjectController.Controller.RemoveObject | src/objectcontroller.cpp:3242-3261 | keeps the agreement; an object in use stays registered but leaves the index |
| ObjectController.Controller.ImportEntry | src/objectcontroller.cpp:3267-3312 | one configuration entry keeps the agreement. Success leaves the object with the addresses named (the old ones, or none, where none are), told of messages to exactly these; or removes it. All other objects, and all objects after a failure, keep their settings |
| ObjectController.ImportedIs | src/objectcontroller.cpp:3267-3312 | the same for the settings by id, and which objects are lost |
| ObjectController.ImportedInParts | src/objectcontroller.cpp:3263-3314 | a configuration is taken entry by entry up to the first failure |
| ObjectController.Controller.ToldNamed | src/objectcontroller.cpp:3163-3174 | an object that is not lost is told of messages to its own address once and to others as often as its listeners name them |
| ObjectController.Controller.ImportXml | src/objectcontroller.cpp:3263-3314 | a whole configuration keeps the agreement; the first failing entry ends it |
| ObjectController.Controller.AgreesAt | src/objectcontroller.cpp:3215-3314 | in every reachable state the index holds each registered object under each non-zero address as often as its addresses name it, except that objects lost in a failed call have no pairs |
| ObjectController.ImportLosesNone | src/objectcontroller.cpp:3263-3314 | a configuration that is imported successfully loses no object |
| ObjectController.SuccessLosesNone | src/objectcontroller.cpp:3215-3314 | no run of successful calls loses an object |
| ObjectController.Controller.OnWrite | src/objectcontroller.cpp:3163-3174 | dispatch to a non-zero address equals scanning all registered objects if and only if no lost object names it, so always after successful calls |
| TimeCounter.StateFollows | src/ruleserver.cpp:2260-2299 | after every run the three fields are determined by the samples |
| TimeCounter.TrueIff | src/ruleserver.cpp:2260-2299 | an evaluation is true if and only if the count is not ended and the sampled true time has reached the threshold; below it the counter equals that time |
| TimeCounter.WakesWhenReached | src/ruleserver.cpp:2270-2281 | the timer is set for the first whole second after the threshold is reached |
| TimeCounter.TimeCounterCondition.Evaluate | src/ruleserver.cpp:2260-2299 | fields, result and the timer task after one evaluation |
| VarStrings.WrittenExpands | src/ruleserver.cpp:566-597 | expanding a written template gives its meaning, whatever the inserted values contain; it fails if and only if an object is unknown |
| VarStrings.DoubledIsLiteral | src/ruleserver.cpp:591-595 | any string with every '$' doubled expands to the string |
| VarStrings.NothingToExpand | src/ruleserver.cpp:566-597 | a string without "$$" and "${" is left as it is |
| VarStrings.UnclosedIsKept | src/ruleserver.cpp:577-579 | a reference that is not closed ends the expansion |
| VarStrings.WrittenChecks | src/ruleserver.cpp:580-590 | only checking leaves the references of a template in place and finds the unknown ones |
| VarStrings.ParseVarString | src/ruleserver.cpp:566-597 | the in-place loop ends and equals one pass from left to right, also when only checking |
| VarStrings.ParseReference | src/ruleserver.cpp:575-590 | the branch for one reference |
| Durations.FormattedIsParsed | src/ruleserver.cpp:118-184 | parsing a formatted duration gives it back for every 32-bit value and in both units, without overflow; negative ones are refused where not allowed |
| Durations.PrintedIsParsed | src/ruleserver.cpp:118-159 | a printed number with a unit is parsed as that number, scaled |
| Durations.DurationIsParsed | src/ruleserver.cpp:118-159 | a number with a sign, a unit and white space anywhere between is parsed as that number of units; what follows is not looked at |
| Durations.ScaledIs | src/ruleserver.cpp:136-157 | the seconds in each unit, "s" included, and the errors |
| Durations.FormatsInLargestUnit | src/ruleserver.cpp:161-184 | a duration is printed in the largest unit that it is a whole number of |
| Durations.FormatsMilliseconds | src/ruleserver.cpp:161-175 | whole seconds are printed as seconds, the rest in milliseconds |
| MessageFraming.ReadConserves | src/xmlserver.cpp:664-700 | a successful call takes exactly the first message and its terminator off the stream; a failed one keeps the buffer, and no message was left |
| MessageFraming.FailsAtFailedRead | src/xmlserver.cpp:684-699 | a call that fails has taken exactly the reads before the failed one |
| MessageFraming.SessionSplits | src/xmlserver.cpp:664-700 | a session delivers the stream split at byte 4 |
| MessageFraming.CutsDoNotMatter | src/xmlserver.cpp:664-700 | two fragmentations of one stream deliver the same messages |
| MessageFraming.FramedMessages | src/xmlserver.cpp:664-700 | messages without byte 4, each followed by it, are delivered as they are |
| MessageFraming.Byte4Ends | src/xmlserver.cpp:673-691 | the byte that ends a message is byte 4 |
| MessageFraming.ClientConnection.ReadNext | src/xmlserver.cpp:664-700 | one call: result, message and buffer |

## Left out

- Time zones and daylight saving: `mktime` and `localtime` are the proleptic Gregorian
  calendar in UTC over unbounded integers, and `mktimeNoDst` is not modelled.
- Instants before 1970 as start times: 0 stands for "none" in the code, and the
  theorems about searches ask for a start of at least 0.
- Times of day out of range with a full date, which `isValid` lets pass: the theorems ask
  for hours in 0..23 and minutes in 0..59 (`WellFormed`); the search itself is modelled
  for all of them.
- Negative offsets: the search is modelled and its results are proved to be shifted occurrences after the start, but not to be the earliest: after a day was passed over, the code compares a shifted time with the end of that day.
- FindNextIsNext: does not cover colliding specifications, because the search is wrong for them; `AlwaysNextIff` proves that it covers all others without exception days.
- DecodeBuffer: asks for one cell more than there are decoded bytes; by `DecodedFits` one more than there are characters is enough.
- FindNextTime: asks that the search ends, because the original's recursion need not; `PlainNext` and `EndsIff` say when it does.
- The recursion of `tryResolve` and `findNext` is stated with a bound `n` on the calls;
  `MoreResolves`, `OneOutcome` and `EndsIff` show that the bound carries no meaning.
- Variable and solar time specifications, and objects as a source of fields.
- The sets of free fields and weekdays are sets, not bit masks.
- The timer queue takes a task's next time from a function; that `PeriodicTask` computes
  it is proved apart, in `PeriodicTasks`.
- The sleep of the timer thread between checks, and logging everywhere.
- The base64 decoder is modelled where `char` is signed. Where it is not, the test for a
  negative fragment in b64/src/cdecode.c never holds, and ignored characters are decoded.
- Base64 alphabets are given by ranges rather than by their tables; the jump into the
  loop is a choice by the saved step.
- XML comments, declarations, unknown nodes, UTF-8, white-space condensing, row and
  column stamps, pretty printing and stream input. On input of these kinds the model of
  the parser gives no result.
- ParseNodeAt: gives no result for comments, declarations and unknown nodes, which the original parses.
- ParseElementAt: builds values rather than linked nodes; the linking is proved in `XmlDom`.
- Clone: copies the value of one node and not the nodes below it, which no list operation looks at.
- The KNX float counts in hundredths, so the rounding of `rint` and of the division by
  100 is not modelled; a configured precision is a whole number of hundredths.
- ImportEntry: an entry with an unreadable address, which fails after part of the settings have changed, is not modelled; unreadable types and ids are.
- RemoveObject: asks that the object is the one registered under its id, as all callers ensure.
- The values that objects hold and all datapoint types but the float.
- Overflow of the counter of a `TimeCounterCondition` after 68 years of true time, and of
  the fields of `tm`.
- Sockets, pth threads, KNX access, e-mail, SMS, databases, Lua, and the rest of the rule
  server: calls into code that is not part of this model.

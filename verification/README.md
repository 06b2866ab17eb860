# MicroPython port cores: a verified model

A Dafny model of the self-contained algorithms in the MicroPython ports of this repository,
with proofs of what they promise. Each part takes the form of its source: loops that update
variables and buffers are methods over arrays and object fields, proved equal to recursive
functions; laws about those functions are lemmas.

| part | files | what is proved |
|---|---|---|
| PWM driver (`esppwm.c`) | `pwm_table`, `pwm_steps`, `pwm_handler`, `pwm_buffers`, `pwm_driver` | the table compiler and the double-buffered interrupt handler together hold every pin high for exactly its duty, in every period and every interleaving the code supports |
| JSON loader (`modujson.c`) | `json`, `json_load`, `json_numeral`, `json_bits`, `json_grammar`, `json_theorem`, `json_plus`, `json_number`, `json_surrogates`, `json_lenient`, `json_accept`, `json_strict`, `json_value` | the non-recursive one-pass loop computes the value of every JSON text it takes; exactly which texts it takes, which of those are JSON, and what value each of them gets |
| Heaps (`moduheapq.c`, `modutimeq.c`) | `heap_sift`, `heapq`, `utimeq`, `utimeq_drive` | heap laws and heap sort for any strict weak order; the wrapping-clock queue refines one on an unbounded clock |
| Frame buffer (`modframebuf.c`) | `framebuf`, `framebuf_fill`, `framebuf_object`, `framebuf_line`, `framebuf_move` | five packed formats, fast fills, lines, in-place scrolling and blitting agree with a plain pixel grid, bit for bit |
| I2C master (`machine_i2c.c`) | `i2c` | an observer who knows only UM10204, sections 3.1.3 to 3.1.6, reads exactly the intended transaction off the wires |
| uctypes (`moductypes.c`) | `uctypes_size`, `uctypes_access`, `uctypes_width`, `uctypes_layout`, `uctypes_memory`, `uctypes_bits` | loads and stores reach exactly the bytes the description declares, inside the computed size, in unbounded and in 32-bit arithmetic; stores leave all other fields alone; exactly when the reported sizes are right |
| TCP receive queue (`modlwip.c`) | `lwip_tcp` | no byte is lost, repeated or reordered between callbacks and reads |
| Serial framer and upload (`esp32/mptask.c`) | `framer`, `upload` | frames are handed over whole and in order; an upload writes the concatenation of its chunks |
| base64 and hex (`modubinascii.c`) | `base64`, `base64_text`, `base64_codec`, `hex` | round trips both ways, character by character as in RFC 4648, exactly which texts are refused, and exactly when allocated and written lengths agree |
| Event rings and clock (`ets_alt_task.c`) | `ets_tasks`, `ets_loop` | bounded first-in first-out queues over any run of posts and passes |
| RTC (`machine_rtc.c`) | `rtc` | overflow recovery is exact if and only if reads are less than a turn apart |
| 1-Wire CRC (`modonewire.c`) | `onewire_crc`, `onewire_polynomial` | the remainder modulo x^8 + x^5 + x^4 + 1; bijectivity, linearity, detection of any one-byte change |

`seqs` holds what several parts share. `dafny verify dfyconfig.toml` checks the whole project.

## Where the code does less than its documentation says

- JSON: the comment in `modujson.c` says that any valid JSON is parsed, which fails exactly for
  exponents with a plus sign (`JsonTextLoadsIff`); a surrogate pair of escapes is read as two
  characters (`RfcStringIff`). It also says that a superset is accepted;
  `LoadsIff` says which one, and `AcceptedIsJsonIff` which of its texts are JSON. A key without
  a value even carries over: all dicts of a text share one alternation of keys and values
  (`KeysAlternate`, `DictBegins`, `KeyTakenUp`), which does not show where every dict holds
  pairs (`PairedNode`).
- PWM: the first period after a direct start is wrong unless every channel is off or full on
  (`DirectStartIff`), two builds within one period make the next one write the table being
  played (`SecondBuildIsUnsafe`), and a direct start is lost if its first period ends before
  the toggle flips (`StartWindowIff`).
- base64: `a2b_base64` returns bytes it never wrote when the last quad is like `AA=A`
  (`LengthIff`, `StrayPaddingDecodes`).
- hexlify: with a separator and no bytes the allocated length wraps (`HexLengthIff`).
- utimeq: equal times leave in push order exactly while the id counter does not wrap between
  the pushes (`SameTimeOrderIff`, `RunOrderIff`).
- Serial framer: a frame is handed over whole exactly with 1 to 125 payload bytes
  (`FrameRunsIff`); one without payload swallows the next frame (`EmptyFrameSwallows`).
- Event rings: a ring keeps its indices exactly up to 127 slots (`KeepsSlotsIff`).
- Frame buffer: scrolling ends exactly for the steps of `ScrollEndsIff`.
- uctypes: `sizeof` is right exactly below 1 GiB (`ReportedIff`, `NegativeSize`), the length of
  the buffer exactly below 4 GiB (`SizeIff`, `WrappedSize`); a store to a native array of
  64-bit integers ignores the index (`StoreHitsIff`, `ReadsBackIff`).

## Reading the model

- Hardware, lwIP, the interpreter, clocks and other parties are parameters or state: pins and
  timer loads of the PWM, the slave's side of an I2C bus slot by slot, network events during a
  poll, posts from interrupts and handlers during a dispatch pass.
- Integer widths are written out where they matter: 16-, 32- and 64-bit wrap-around, signed
  8-bit indices, byte operations as bit-vectors.
- Methods with `old` in their contracts change the same fields as the source; the functions
  they are tied to carry the laws.

## Model

| member | source | states |
|---|---|---|
| PwmTicks.TicksExact | micropython-esp32/esp8266/esppwm.c:61-67 | Both branches of the tick macro give exactly 5 ticks a microsecond, without 32-bit wrap-around, for every period the driver can set |
| PwmTicks.DutyTicksExact | micropython-esp32/esp8266/esppwm.c:135-138 | A duty of d/1023 takes 5*floor(period*d/1023) ticks; the product never wraps; duty 0 is no tick and duty 1023 the whole period |
| PwmTable.MergedSays | micropython-esp32/esp8266/esppwm.c:147-164 | After sorting and merging, each instant of the table sets and clears exactly the pins that some channel or the period entry sets or clears at that time: nothing is lost or invented by insertion sort or by the combining loop |
| PwmTable.InsertSortSorts | micropython-esp32/esp8266/esppwm.c:83-107 | The insertion sort leaves the slots in order of time |
| PwmTable.InsertSortPermutes | micropython-esp32/esp8266/esppwm.c:83-107 | The insertion sort keeps every slot and adds none |
| PwmTable.SegmentsMeaning | micropython-esp32/esp8266/esppwm.c:166-184 | Interpreting the delta-encoded, stripped table by waiting times gives the same level at every tick as the absolute-time table before delta encoding |
| PwmTable.CompiledTableKeepsDuties | micropython-esp32/esp8266/esppwm.c:131-184 | For any active channels and any period, one pass over the compiled table from the period entry holds each pin high for exactly its own first ticks and low for the rest, leaves other pins alone, and the delays sum to the period |
| PwmTable.CompiledTableHighTicks | micropython-esp32/esp8266/esppwm.c:131-184 | The ticks a pin is high in a period add up to its own count |
| PwmTable.CompiledTableWellFormed | micropython-esp32/esp8266/esppwm.c:166-184 | All delays are positive, set and clear masks are disjoint and within the active pins, and only the last entry raises pins, so full and zero duty never glitch |
| PwmTable.SingleEntryIff | micropython-esp32/esp8266/esppwm.c:193-197 | The table has one entry, and the timer may stop, exactly when every channel is off or full on |
| PwmSteps.InsertSlot | micropython-esp32/esp8266/esppwm.c:89-106 | The in-place inner loop inserts one slot into the sorted prefix and moves nothing else |
| PwmSteps.InsertionSort | micropython-esp32/esp8266/esppwm.c:83-107 | The in-place sort computes the specified sort of the first n slots and leaves the rest |
| PwmSteps.CloseGap | micropython-esp32/esp8266/esppwm.c:158-162 | The shifting loop removes one slot, in place |
| PwmSteps.MergeSlots | micropython-esp32/esp8266/esppwm.c:152-164 | The backwards combining loop computes the merged table and its new length |
| PwmSteps.TakeDeltas | micropython-esp32/esp8266/esppwm.c:166-169 | The backwards subtraction turns times into waiting times |
| PwmSteps.CleanAndStrip | micropython-esp32/esp8266/esppwm.c:171-184 | The last two steps clear the period entry and drop a leading zero-time entry, moving its mask |
| PwmHandler.PlayIsSegments | micropython-esp32/esp8266/esppwm.c:304-335 | Interrupt by interrupt, the handler plays the entries of its table in order with their delays |
| PwmHandler.PeriodKeepsDuties | micropython-esp32/esp8266/esppwm.c:304-335 | The interrupt that ends any period picks the published table up and the next period plays its pulses exactly |
| PwmHandler.EveryPeriodKeepsDuties | micropython-esp32/esp8266/esppwm.c:304-335 | So does every later period, and pins of inactive channels never move |
| PwmHandler.DirectStartIff | micropython-esp32/esp8266/esppwm.c:186-198 | Starting a stopped timer outputs entry 0 instead of the period entry; the period that follows is right if and only if every channel is off or full on |
| PwmBuffers.StepRefines | micropython-esp32/esp8266/esppwm.c:186-204 | Any single safe action - an interrupt, a store of a build, the test of pwm_timer_down with a direct start up to the load, or the flip of the toggle - keeps the invariant and looks like a step of a machine without buffers, which takes a finished table at once |
| PwmBuffers.RunRefines | micropython-esp32/esp8266/esppwm.c:131-204 | The driver refines that machine over every interleaving of interrupts with the stores of builds, the test and the flip in which a build begins only when the handler has picked up the last one, and a timer just started ends no period before the toggle flips |
| PwmBuffers.PeriodUndisturbed | micropython-esp32/esp8266/esppwm.c:311-334 | Within a period, builds change neither pins nor timer: they stand where the interrupts alone would have put them |
| PwmBuffers.WritesInvisibleIff | micropython-esp32/esp8266/esppwm.c:131-132 | The writes of a build leave the table being played alone if and only if the handler plays from the published bank while they happen; the table to be picked up next they never touch |
| PwmBuffers.SecondBuildIsUnsafe | micropython-esp32/esp8266/esppwm.c:200-204 | Two builds within one period reach a state where the next build writes the table being played |
| PwmBuffers.StartWindowIff | micropython-esp32/esp8266/esppwm.c:186-204 | A direct start is as good as an atomic one exactly if the first period has not ended when the toggle flips; if it has, the handler picks the old table, stops the timer, and the new table is not played |
| PwmDriver.Build | micropython-esp32/esp8266/esppwm.c:131-184 | The in-place steps of pwm_start together leave the compiled table of the current channels in the bank |
| PwmDriver.Pwm.Start | micropython-esp32/esp8266/esppwm.c:121-208 | pwm_start publishes the compiled table of the current channels in the bank the toggle does not select, and starts a stopped timer |
| PwmDriver.Pwm.TimerInterrupt | micropython-esp32/esp8266/esppwm.c:304-335 | The handler over the two banks is the specified interrupt step |
| PwmDriver.Pwm.constructor | micropython-esp32/esp8266/esppwm.c:344-366 | After pwm_init the published table is that of no channels at 500 Hz |
| PwmDriver.InitSafe | micropython-esp32/esp8266/esppwm.c:344-366 | After initialisation the driver is in the invariant that every safe run of interrupts and builds keeps |
| PwmDriver.ChannelTable.Add | micropython-esp32/esp8266/esppwm.c:368-401 | Unknown pins are refused; a known pin is already there or is appended with duty 0; the table stays a dense prefix of distinct channels with the rest -1 and the mask the union of their pins |
| PwmDriver.ChannelTable.Delete | micropython-esp32/esp8266/esppwm.c:403-428 | The channel's row goes and the others stay in order with their duties, its pin leaves the mask, and the count is one less exactly if the channel was there |
| PwmDriver.ChannelTable.SetDuty | micropython-esp32/esp8266/esppwm.c:217-239 | Only that channel changes, to the duty clamped to 0..1023; an absent channel changes nothing |
| PwmDriver.ChannelTable.GetDuty | micropython-esp32/esp8266/esppwm.c:269-283 | The duty of the channel, or 0 when it is not in the table |
| PwmDriver.ChannelTable.SetFreq | micropython-esp32/esp8266/esppwm.c:247-261 | The frequency is clamped to 1..1000 Hz and the period is the whole microseconds of one cycle |
| PwmDriver.FullTableHasChannel | micropython-esp32/esp8266/esppwm.c:384-400 | A table with eight channels holds every channel, so adding a known pin never fails |
| PwmDriver.AfterOpKeeps | micropython-esp32/esp8266/esppwm.c:217-239 | Add, delete and set-duty keep the table valid and touch no row of another channel |
| PwmDriver.OtherChannelsKeepDuty | micropython-esp32/esp8266/esppwm.c:368-428 | Over any sequence of add, delete and set-duty, a channel no operation names keeps its row and its duty, or stays absent |
| PwmDriver.RunSetting | micropython-esp32/esp8266/esppwm.c:217-428 | After any sequence of add, delete and set-duty each channel is on or off, and has the duty, that the operations on it alone say in their order: added with duty 0, set while it is on, up to 1023, and off once deleted |
| PwmDriver.LastDeleteAbsent | micropython-esp32/esp8266/esppwm.c:403-428 | Over any sequence of operations, a channel whose last one was a delete is not in the table |
| PwmDriver.ApplyAll | micropython-esp32/esp8266/esppwm.c:217-428 | Any sequence of add, delete and set-duty on the object leaves each channel with that setting, and those that were deleted last not in the table |
| PwmDriver.AbsentPinStill | micropython-esp32/esp8266/esppwm.c:121-335 | The pin of a channel that is not in the table is not moved in any period of the table that is built then |
| PwmDriver.DutiesPlayed | micropython-esp32/esp8266/esppwm.c:121-335 | From duties to levels: in every period each channel of the table is high for its first 5*floor(period*duty/1023) ticks of 5*period and low until the end |
| JsonTheorem.EveryJsonTextLoads | micropython-esp32/extmod/modujson.c:83-273 | Every RFC 4627 text, with any white space, escapes and nesting, loads as exactly its value, if no exponent in it has a plus sign; \u escapes stand for their code units one by one |
| JsonTheorem.EveryIntegerLoads | micropython-esp32/extmod/modujson.c:172-194 | The decimal writing of any number - the digit of n % 10 behind the writing of n / 10 - with any sign and leading zeros, between any white space, loads as that number |
| JsonPlus.JsonTextLoadsIff | micropython-esp32/extmod/modujson.c:47-58 | A JSON text loads exactly when no exponent in it is written with a plus sign, so the claim to parse any valid JSON fails just there |
| JsonPlus.PlusToken | micropython-esp32/extmod/modujson.c:173-194 | The number loop stops in front of the plus, and the number in front of it is refused |
| JsonLenient.LeafSpelled | micropython-esp32/extmod/modujson.c:104-194 | Every literal, string or number the switch takes is spelled as the lenient grammar says |
| JsonLenient.LeafReads | micropython-esp32/extmod/modujson.c:104-194 | Every leaf of the grammar is read as one atom, the same whatever follows it |
| JsonLenient.LaxStringToken | micropython-esp32/extmod/modujson.c:136-170 | A string with any escapes, known or not, and any four bytes behind \u is read as the bytes its characters stand for |
| JsonAccept.ParseSound | micropython-esp32/extmod/modujson.c:83-273 | Whatever the recursive reference parser takes is spelled by the lenient grammar |
| JsonAccept.ParseComplete | micropython-esp32/extmod/modujson.c:83-273 | The lenient grammar is unambiguous: the parser finds the very tree a text was spelled from |
| JsonAccept.RunParses | micropython-esp32/extmod/modujson.c:95-254 | From inside any container the loop with its stack reads what the recursive parser parses, does to its state what the tree says, and fails where either does |
| JsonAccept.WalkKidsFlows | micropython-esp32/extmod/modujson.c:228-252 | Reading a tree fails exactly where the grammar refuses a container as key, and leaves a key waiting exactly when the grammar says so |
| JsonAccept.LoadsIff | micropython-esp32/extmod/modujson.c:83-273 | The loader accepts exactly the texts of the lenient grammar: any commas, colons and white space as separators, either bracket to close, no container as key, a pending key handed on between dicts, and only the outermost group unclosed |
| JsonLenient.EndSeen | micropython-esp32/extmod/modujson.c:255-263 | The end is reached exactly if nothing but spaces, tabs and line or page breaks comes before the end of the text or a NUL |
| JsonNumber.NumberTakenIff | micropython-esp32/py/parsenum.c:171-306 | The numbers taken are exactly: a minus or none, digits, a point with digits or none, an e or E with a minus or none and at least one digit, or none; they start with a digit, or with a minus and are not that alone |
| JsonStrict.NumeralIsJsonIff | micropython-esp32/extmod/modujson.c:172-194 | Such a number is JSON exactly when it has an integer part without leading zeros, and digits behind its point |
| JsonStrict.AcceptedIsJsonIff | micropython-esp32/extmod/modujson.c:47-58 | An accepted text is JSON exactly when its one reading has white space around it, JSON leaves, pairing brackets, one comma between parts and string keys with one colon |
| JsonValue.AcceptedLoadsAs | micropython-esp32/extmod/modujson.c:83-273 | Every accepted text, JSON or not, loads as the value of its tree, in which one pending key goes along into containers and comes back out of them |
| JsonValue.WalkKidsFills | micropython-esp32/extmod/modujson.c:228-252 | Reading a tree adds exactly its parts to the open container and touches no other object that was there |
| JsonValue.ReifyKept | micropython-esp32/extmod/modujson.c:195-202 | What an object stands for depends on it and on younger ones only |
| JsonValue.KeysAlternate | micropython-esp32/extmod/modujson.c:233-241 | A tree goes through exactly when every other part that dicts receive, counted through the whole text and over all dicts, is not a container; a key waits exactly after an odd number of them |
| JsonValue.KeyWaits | micropython-esp32/extmod/modujson.c:233-241 | The key that waits is the last part any dict has received |
| JsonValue.DictBegins | micropython-esp32/extmod/modujson.c:232-242 | A dict in a list begins with the key another dict has left exactly if dicts have received an odd number of parts in front of it, and is filled from there |
| JsonValue.KeyTakenUp | micropython-esp32/extmod/modujson.c:232-242 | For any two leaves k and v, [{k}{v}] loads as a list of an empty dict and of the dict from k to v |
| JsonValue.PairedNode | micropython-esp32/extmod/modujson.c:232-242 | If every dict holds pairs of a leaf and a value, no key crosses a bracket: the value is that of each container by itself |
| JsonTheorem.RunValue | micropython-esp32/extmod/modujson.c:221-253 | Inside any container, reading a value adds exactly that value to the container, leaves stack and pending key as they were, and goes on behind the value |
| JsonTheorem.RunItems | micropython-esp32/extmod/modujson.c:230-231 | Reading the items of an array appends them in order |
| JsonTheorem.RunMembers | micropython-esp32/extmod/modujson.c:232-242 | Reading the members of an object stores each value under its name; the last one of equal names stays |
| JsonTheorem.ObjectsMean | micropython-esp32/extmod/modujson.c:195-202 | The mutable objects the loop leaves in memory stand for the value of the text, wherever they lie |
| JsonStrict.AcceptsMoreThanJson | micropython-esp32/extmod/modujson.c:47-58 | Four texts load and are not JSON: brackets that do not pair, a missing last bracket, commas and colons as white space, a key without a value |
| JsonGrammar.CharsRead | micropython-esp32/extmod/modujson.c:136-170 | The string loop reads any sequence of plain, escaped and \u characters as the bytes they stand for |
| JsonGrammar.AtomToken | micropython-esp32/extmod/modujson.c:104-194 | Each literal, number without a plus sign, or string of JSON is read as its value, whatever follows it |
| JsonGrammar.DecimalAtom | micropython-esp32/py/parsenum.c:171-306 | The decimal parser takes every RFC number with a fraction or exponent but no plus sign |
| JsonNumeral.ParseInteger | micropython-esp32/py/parsenum.c:50-110 | The digit loop of the integer parser computes the specified number, or refuses the text |
| JsonNumeral.ParseDecimal | micropython-esp32/py/parsenum.c:171-306 | The loop of the decimal parser takes exactly the specified texts, and over the reals computes the specified value |
| JsonNumeral.DecimalMeans | micropython-esp32/py/parsenum.c:171-306 | Over the reals the decimal parser gives a JSON decimal its value: the number its digits write without the point, divided by ten for each digit behind the point, times ten to its signed exponent |
| JsonGrammar.Utf8RoundTrip | micropython-esp32/extmod/modujson.c:148-158 | The bytes stored for a \u escape are a UTF-8 head byte, which tells their number, and continuation bytes, and decode to its code point, of up to 20 bits where the digits are no hexadecimal ones |
| JsonBits.HexDigitBytes | micropython-esp32/extmod/modujson.c:151-154 | The digit of a \u escape is made by the operations on bytes of the source, for any byte |
| JsonBits.ShiftInBits | micropython-esp32/extmod/modujson.c:155 | Shifting a digit in moves every bit up four places and sets those of the digit |
| JsonBits.EscapeBelow | micropython-esp32/extmod/modujson.c:148-158 | Whatever follows a \u, the number made of it has at most 20 bits |
| JsonSurrogates.RfcStringIff | micropython-esp32/extmod/modujson.c:148-158 | A JSON string is read as the characters RFC 4627 means exactly when no two adjacent escapes in it form a surrogate pair |
| JsonLoad.Load | micropython-esp32/extmod/modujson.c:83-273 | The imperative loop over stream position, stack, current container and pending key computes the specified run, and ends on every input |
| JsonLoad.Turn | micropython-esp32/extmod/modujson.c:96-253 | One turn of the loop takes the specified run one token on, or ends it |
| JsonLoad.Conclude | micropython-esp32/extmod/modujson.c:255-273 | From the label success on the loop over trailing white space computes the specified end |
| JsonLoad.ReadString | micropython-esp32/extmod/modujson.c:136-170 | The string loop computes the specified scan |
| JsonLoad.ReadEscape | micropython-esp32/extmod/modujson.c:148-158 | The four-digit loop computes the specified number, whatever the digits are |
| JsonLoad.ReadNumber | micropython-esp32/extmod/modujson.c:172-194 | The number loop takes the longest run of number characters and notes a decimal |
| JsonLoad.ReadWord | micropython-esp32/extmod/modujson.c:112-135 | The literal tests read exactly the word, byte by byte |
| JsonLoad.ReadNext | micropython-esp32/extmod/modujson.c:97-220 | One turn of the loop reads the specified token |
| HeapSift.SiftDownOrders | micropython-esp32/extmod/moduheapq.c:43-56 | An item sifted from a hole whose children are not smaller towards the root leaves a heap |
| HeapSift.HoleToLeafKeeps | micropython-esp32/extmod/moduheapq.c:58-73 | Moving the hole to a leaf along the smaller children keeps the heap around the hole |
| HeapSift.SiftUpOrders | micropython-esp32/extmod/moduheapq.c:58-73 | Leaf-first siftup followed by siftdown puts a node in order with everything below it |
| HeapSift.SiftUpContent | micropython-esp32/extmod/moduheapq.c:58-73 | Siftup keeps the items |
| HeapSift.RootLeast | micropython-esp32/extmod/moduheapq.c:88 | No item of a heap is smaller than its root |
| HeapSift.PushOrders | micropython-esp32/extmod/moduheapq.c:75-80 | A pushed item leaves a heap of the old items and the new one |
| HeapSift.PopOrders | micropython-esp32/extmod/moduheapq.c:83-96 | With the last item in the root's place, siftup leaves a heap of the others |
| HeapSift.SiftDownInPlace | micropython-esp32/extmod/moduheapq.c:43-56 | The in-place loop computes the specified siftdown |
| HeapSift.SiftUpInPlace | micropython-esp32/extmod/moduheapq.c:58-73 | The in-place loop computes the specified siftup |
| HeapQ.CountingRanks | micropython-esp32/extmod/moduheapq.c:48 | Every strict weak order on the items can be ranked by integers, so the heap laws hold for any such comparison |
| HeapQ.List.HeapPush | micropython-esp32/extmod/moduheapq.c:75-80 | Push keeps the heap and adds exactly the item |
| HeapQ.List.HeapPop | micropython-esp32/extmod/moduheapq.c:83-96 | Pop returns a least item, removes exactly it and keeps the heap; an empty list is an error |
| HeapQ.List.Heapify | micropython-esp32/extmod/moduheapq.c:99-105 | Heapify turns any list into a heap that is a permutation of it |
| HeapQ.HeapSort | micropython-esp32/extmod/moduheapq.c:83-105 | Heapify followed by pops until the list is empty yields the sorted permutation of the list |
| UTimeQ.LessIsEarlier | micropython-esp32/extmod/modutimeq.c:64-77 | For times within half a period of the last popped one, the wrapping comparison is the order of the unbounded clock, then of push order |
| UTimeQ.LessIff | micropython-esp32/extmod/modutimeq.c:64-77 | Of any two times on the clock the first is less exactly if the second lies less than half a period ahead of it, and equal times are in the order of their id fields |
| UTimeQ.WindowMoves | micropython-esp32/extmod/modutimeq.c:64-77 | When the earliest entry leaves, the window it opens holds the others and moves none of their unbounded times |
| UTimeQ.PopFirst | micropython-esp32/extmod/modutimeq.c:154-157 | The root is the truly earliest entry |
| UTimeQ.PopRest | micropython-esp32/extmod/modutimeq.c:158-164 | After siftup the other entries are a heap in the new window |
| UTimeQ.Queue.HeapPush | micropython-esp32/extmod/modutimeq.c:126-141 | Push adds exactly the entry and takes the next id; a full queue is an error and changes nothing; an empty queue takes any time |
| UTimeQ.Queue.HeapPop | micropython-esp32/extmod/modutimeq.c:144-166 | Pop returns the truly earliest entry, removes exactly it, and moves the window up to it |
| UTimeQ.Queue.PeekTime | micropython-esp32/extmod/modutimeq.c:169-177 | Peek returns the time of the earliest entry |
| UTimeQDrive.Drive | micropython-esp32/extmod/modutimeq.c:126-166 | Any calls on a real queue that keep the module's window, whichever of the earliest entries leaves: each call is answered by its own step on the unbounded clock (added or refused as full, the earliest entry, or an error when empty), the queue ends with the entries of the last step, entries leave in order, and what was pushed is what was popped and what waits |
| UTimeQDrive.CallsInOrder | micropython-esp32/extmod/modutimeq.c:126-166 | The same of any sequence of such steps from an empty queue |
| UTimeQDrive.CallsRun | micropython-esp32/extmod/modutimeq.c:126-166 | Steps of calls are a run of pushes and pops that takes out and puts in the same entries |
| UTimeQDrive.RunConserves | micropython-esp32/extmod/modutimeq.c:126-166 | Over any run no entry is lost or made up |
| UTimeQ.OpStepKeeps | micropython-esp32/extmod/modutimeq.c:126-166 | Each push and pop keeps: nothing waits that is due before the last pop, and everything popped came out in order before everything waiting |
| UTimeQ.RunPopsInOrder | micropython-esp32/extmod/modutimeq.c:126-166 | Over any run of pushes and pops from a fresh queue, whatever the counter has reached, entries leave in order of unbounded due time, and equal times in push order unless the counter wrapped between the pushes |
| UTimeQ.RunOrderIff | micropython-esp32/extmod/modutimeq.c:68-72 | In any run, of two entries due together that wait together and were pushed fewer than 2^32 pushes apart, the one that leaves was pushed first exactly when the counter did not wrap between them |
| UTimeQ.SameTimeOrderIff | micropython-esp32/extmod/modutimeq.c:68-72 | Of two pushes for one time, fewer than 2^32 pushes apart, the comparison puts the first one first exactly when the counter does not wrap between them, and the second one first exactly when it does |
| UTimeQ.WrappedIdOvertakes | micropython-esp32/extmod/modutimeq.c:69-71 | The first push after a wrap of the counter overtakes the last one before it for the same time |
| FrameBufFormat.PutGet | micropython-esp32/extmod/modframebuf.c:65-153 | In every format, setting a slot of a unit sets that pixel and no other bit of the unit |
| FrameBufFormat.SlotsDetermine | micropython-esp32/extmod/modframebuf.c:71-153 | The pixels of a unit are all there is to it |
| FrameBufFormat.PixelsDistinct | micropython-esp32/extmod/modframebuf.c:65-153 | No two pixels of the grid share a slot |
| FrameBufFormat.PixelAt | micropython-esp32/extmod/modframebuf.c:65-153 | Every slot of the buffer is a pixel of the grid |
| FrameBufPixels.SetPix | micropython-esp32/extmod/modframebuf.c:194-200 | getpixel after setpixel: the pixel holds its color, every other pixel is as before |
| FrameBufPixels.PaintedUnique | micropython-esp32/extmod/modframebuf.c:202-215 | Painting a region has one result, whatever the order |
| FrameBufPixels.PaintedIsSetRect | micropython-esp32/extmod/modframebuf.c:202-215 | A fill that paints a rectangle equals setpixel on each of its pixels, bit for bit |
| FrameBuf.FrameBuffer.SetPixel | micropython-esp32/extmod/modframebuf.c:65-145 | In every format setpixel changes exactly the bits of its pixel, told by masks: 0x80 >> (x & 7) or 1 << (x & 7) of byte (x + y*stride)/8, 1 << (y & 7) of byte (y/8)*stride + x, the high or the low nibble for even or odd x, or the whole word |
| FrameBuf.FrameBuffer.GetPixel | micropython-esp32/extmod/modframebuf.c:71-153 | getpixel reads exactly those bits |
| FrameBufPixels.SetWrites | micropython-esp32/extmod/modframebuf.c:65-145 | What the laws call setting a pixel is that change of the buffer |
| FrameBufPixels.PixShows | micropython-esp32/extmod/modframebuf.c:71-153 | What the laws call the color of a pixel is what those bits hold |
| FrameBuf.FrameBuffer.MonoHorizFill | micropython-esp32/extmod/modframebuf.c:77-89 | The column loops of both horizontal formats leave the buffer setpixel would leave |
| FrameBuf.FrameBuffer.MvlsbFill | micropython-esp32/extmod/modframebuf.c:103-113 | So do the row loops of the vertical format |
| FrameBuf.FrameBuffer.Rgb565Fill | micropython-esp32/extmod/modframebuf.c:125-133 | So does the single pointer of the 16-bit format |
| FrameBuf.FrameBuffer.Gs4Fill | micropython-esp32/extmod/modframebuf.c:155-184 | So does the nibble and memset path, for all parities of x and w |
| FrameBuf.FrameBuffer.Gs4Row | micropython-esp32/extmod/modframebuf.c:166-183 | The pointer stops so that one fixed step reaches the next row, whatever the parities |
| FrameBuf.FrameBuffer.FillRect | micropython-esp32/extmod/modframebuf.c:202-215 | The clipped fill sets exactly the on-screen pixels of the rectangle and changes no other bit |
| FrameBuf.FrameBuffer.Fill | micropython-esp32/extmod/modframebuf.c:263-268 | fill sets the whole screen |
| FrameBufLine.LineEnds | micropython-esp32/extmod/modframebuf.c:353-415 | The line starts at its first point and ends at (x2, y2) |
| FrameBufLine.LineConnected | micropython-esp32/extmod/modframebuf.c:353-415 | Consecutive points are neighbours, one step along the longer axis |
| FrameBufLine.LineNear | micropython-esp32/extmod/modframebuf.c:392-409 | Every point is within half a pixel of the ideal line on the minor axis |
| FrameBufLine.NextError | micropython-esp32/extmod/modframebuf.c:392-408 | The error term stays 2*dy*(i+1) - dx - 2*dx*k from step to step |
| FrameBufLine.Adjust | micropython-esp32/extmod/modframebuf.c:403-406 | The inner while loop runs at most once a step, exactly when the error is not negative |
| FrameBufLine.Walk | micropython-esp32/extmod/modframebuf.c:392-409 | The loop plots exactly the first dx points |
| FrameBufLine.DrawLine | micropython-esp32/extmod/modframebuf.c:353-416 | Exactly the on-screen points of the line change, to the color, both ends among them |
| FrameBufMove.SourceUnvisited | micropython-esp32/extmod/modframebuf.c:463-491 | With the loop directions the code chooses, no pixel is read after it was written |
| FrameBufMove.Scroll | micropython-esp32/extmod/modframebuf.c:463-492 | In-place scroll, for all steps with which it ends, moves the picture right by xstep and down by ystep, as a simultaneous copy does: each pixel whose source is on screen takes the old value of its source, every other bit stays |
| FrameBufMove.ScrollEndsIff | micropython-esp32/extmod/modframebuf.c:467-490 | The loops, whose end tests are for equality, end exactly when the vertical step is the height, or neither step is longer than its side |
| FrameBufMove.LaidUnique | micropython-esp32/extmod/modframebuf.c:463-492 | That copy has one result |
| FrameBufMove.ScrollBack | micropython-esp32/extmod/modframebuf.c:463-492 | Scrolling there and back restores every pixel that stayed on screen |
| FrameBufMove.Blit | micropython-esp32/extmod/modframebuf.c:419-460 | Pixel (px, py) takes the color of (px - x, py - y) of the source, converted to the destination format, exactly if both are on screen and that color is not the key; nothing else changes |
| I2cBus.ValueBits | micropython-esp32/extmod/machine_i2c.c:117-131 | Eight bits, most significant first, decode to the byte that was sent |
| I2cBus.ByteValue | micropython-esp32/extmod/machine_i2c.c:117-131 | The first of the eight bits of a byte on the wires is its most significant one |
| I2cMaster.SoftI2c.SclRelease | micropython-esp32/extmod/machine_i2c.c:50-63 | Releasing SCL times out exactly when the slave stretches for at least the timeout |
| I2cMaster.SoftI2c.Begin | micropython-esp32/extmod/machine_i2c.c:77-87 | An observer of the wires sees a START, from an idle bus or with SCL low |
| I2cMaster.SoftI2c.End | micropython-esp32/extmod/machine_i2c.c:89-97 | An observer sees a STOP and an idle bus |
| I2cMaster.SoftI2c.WriteByte | micropython-esp32/extmod/machine_i2c.c:113-144 | An observer sees the byte, MSB first, with the slave's acknowledge bit, which is the result |
| I2cMaster.SoftI2c.ReadByte | micropython-esp32/extmod/machine_i2c.c:149-180 | The byte is the slave's, and an observer sees it with the master's ACK or NACK |
| I2cMaster.AckedPrefix | micropython-esp32/extmod/machine_i2c.c:204-225 | The write result is the length of the acknowledged prefix; those bytes went out in order with ACK, then one with NACK if any is left, then nothing |
| I2cMaster.ReceivedAre | micropython-esp32/extmod/machine_i2c.c:250-256 | The bytes read are on the bus in order, all but the last acknowledged |
| I2cMaster.WriteShape | micropython-esp32/extmod/machine_i2c.c:198-242 | A write on the wires is START, the address byte, the bytes up to the first one refused, each with its acknowledge bit, and STOP if asked for; a refused address is followed by STOP alone |
| I2cMaster.ReadShape | micropython-esp32/extmod/machine_i2c.c:248-288 | A read is START, the address byte, the slave's bytes, all but the last acknowledged, and STOP if asked for |
| I2cMaster.SoftI2c.WriteTo | micropython-esp32/extmod/machine_i2c.c:185-226 | Decoded by the bus protocol, the waveform of a write is exactly START, address and W, the bytes up to the first NACK, STOP if asked; an address NACK gives STOP and ENODEV; SDA never moves with SCL high otherwise; the first byte says a 7-bit address and W |
| I2cMaster.SoftI2c.ReadFrom | micropython-esp32/extmod/machine_i2c.c:231-267 | The same for a read, with R; the destination holds the bytes the slave sent |
| UctypesSize.StructSize | micropython-esp32/extmod/moductypes.c:209-263 | The recursive sizing loop computes the specified size and accumulator in 32-bit arithmetic, and fails exactly on a description with an unknown part |
| UctypesSize.StructAggSize | micropython-esp32/extmod/moductypes.c:170-207 | The same for tuples |
| UctypesSize.RoundUpMonotone | micropython-esp32/extmod/moductypes.c:258-261 | Rounding up is monotone in the size and in the power-of-two alignment |
| UctypesSize.SizeMonotone | micropython-esp32/extmod/moductypes.c:209-263 | The size and the accumulator are monotone in the accumulator passed in |
| UctypesSize.WalkMonotone | micropython-esp32/extmod/moductypes.c:222-256 | So is the loop over the fields |
| UctypesAccess.FieldInside | micropython-esp32/extmod/moductypes.c:222-256 | Every field that is not empty ends inside its structure, sized with a fresh accumulator |
| UctypesAccess.AttrInside | micropython-esp32/extmod/moductypes.c:391-505 | An attribute access stays inside the bytes of its structure |
| UctypesAccess.ItemInside | micropython-esp32/extmod/moductypes.c:520-597 | An index access stays inside the bytes of its array |
| UctypesAccess.AccessInside | micropython-esp32/extmod/moductypes.c:391-597 | So does every chain of attribute and index steps that follows no pointer |
| UctypesAccess.StoreHitsIff | micropython-esp32/extmod/moductypes.c:351-389 | A store to an array of scalars reaches the element a load reads back exactly if it is the first one, or not a 64-bit integer in native layout, where the index is ignored |
| UctypesAccess.StoreInside | micropython-esp32/extmod/moductypes.c:533-553 | Every such store stays inside the bytes of its array |
| UctypesLayout.LookupFinds | micropython-esp32/extmod/moductypes.c:399 | A field is found by its own name |
| UctypesLayout.LargestUnit | micropython-esp32/extmod/moductypes.c:161-255 | The alignment of a description is its largest scalar anywhere inside |
| UctypesLayout.SizeCovers | micropython-esp32/extmod/moductypes.c:209-263 | Every field ends inside its structure: the offset declared for it plus the bytes of its type, from a table of the sixteen types |
| UctypesLayout.SizeTight | micropython-esp32/extmod/moductypes.c:209-263 | A structure ends with some field, or in native layout with the least padding to a multiple of its alignment |
| UctypesMemory.LoadReads | micropython-esp32/extmod/moductypes.c:391-597 | In 32-bit addresses, a load along any chain of fields and indices reads exactly the declared bytes: the start plus the declared offsets plus each index times its element size |
| UctypesMemory.StoreWrites | micropython-esp32/extmod/moductypes.c:391-597 | A store along a chain replaces exactly the declared bytes of its scalar and no other byte of memory, and fails exactly if the chain does not end in a scalar of the length given |
| UctypesMemory.ReadsBackIff | micropython-esp32/extmod/moductypes.c:377-385 | The chain that stored a value reads it back, for every value, exactly unless it indexes a native array of 64-bit integers past the first |
| UctypesMemory.OthersKept | micropython-esp32/extmod/moductypes.c:391-597 | A store leaves what every chain reads that parts from its own, at any depth: at fields that do not overlap, or at another element of an array |
| UctypesWidth.SizeIff | micropython-esp32/extmod/moductypes.c:209-263 | In 32-bit arithmetic uctypes_struct_size computes the true size exactly when that is below 4 GiB |
| UctypesWidth.BytesInsideSize | micropython-esp32/extmod/moductypes.c:599-609 | For every description below 4 GiB, whatever chain is followed in 32-bit arithmetic, the bytes touched and the sub-structures exposed lie inside the length of the structure's buffer |
| UctypesWidth.ReportedIff | micropython-esp32/extmod/moductypes.c:265-281 | What sizeof reports, a small integer of 31 bits, is the true size exactly when that is below 1 GiB |
| UctypesWidth.BytesInsideReportedIff | micropython-esp32/extmod/moductypes.c:265-281 | So, below 4 GiB, all that can be reached lies inside the size sizeof reports exactly when the true size is below 1 GiB |
| UctypesWidth.NegativeSize | micropython-esp32/extmod/moductypes.c:280 | An array of 2^24 structures of 64 bytes is reported as -2^30 bytes |
| UctypesWidth.WrappedSize | micropython-esp32/extmod/moductypes.c:200 | Past 4 GiB bytes need not lie inside the buffer: the length of an array of 2^26 structures of 64 bytes is computed as 0, and its second element touches bytes 64 to 71 |
| UctypesBits.FieldRoundTripIff | micropython-esp32/extmod/moductypes.c:423-455 | Writing a bit field and reading it back gives the value cut to its length for every value, exactly when the field is empty or fits its integer |
| UctypesBits.GetFieldBits | micropython-esp32/extmod/moductypes.c:433-438 | A load takes the bits from the position of the field on, as many as it is long, and nothing else |
| UctypesBits.SetFieldBits | micropython-esp32/extmod/moductypes.c:439-454 | A store puts the low bits of the value there and keeps every other bit of the integer, up to the width that is written |
| UctypesBits.OtherFieldsKept | micropython-esp32/extmod/moductypes.c:439-454 | Writing a bit field changes no field that does not overlap it |
| LwipChain.UnreadCat | micropython-esp32/extmod/modlwip.c:362-368 | Appending buffers appends their bytes to what is unread |
| LwipTcp.TakeSplits | micropython-esp32/extmod/modlwip.c:544-565 | Taking bytes off the first buffer moves exactly those from unread to delivered |
| LwipTcp.Socket.OnData | micropython-esp32/extmod/modlwip.c:349-373 | The receive callback appends what arrived; delivered bytes followed by unread ones stay all bytes that arrived |
| LwipTcp.Socket.OnError | micropython-esp32/extmod/modlwip.c:289-296 | The error callback keeps that invariant and marks the connection failed |
| LwipTcp.Socket.PollSockets | micropython-esp32/extmod/modlwip.c:256-262 | Any callbacks during a poll keep it, and add exactly the bytes they bring up to an error that ends the connection |
| LwipTcp.Socket.Receive | micropython-esp32/extmod/modlwip.c:506-568 | For every interleaving with callbacks: bytes are delivered once and in order, the acknowledged window equals the bytes delivered, a read of positive length returns nothing only once the peer closed and the chain is drained, and each error has its exact cause |
| LwipTcp.Socket.Wait | micropython-esp32/extmod/modlwip.c:521-528 | The wait loses nothing and passes no turn at which the timeout on the wrapping clock is up; it ends as late exactly if the turn at which it ended was past the time with the socket connected and nothing arrived |
| LwipTcp.Socket.Block | micropython-esp32/extmod/modlwip.c:515-541 | A read that may block and finds nothing at hand answers ETIMEDOUT at the first turn past its time at which it is still connected and without data |
| LwipTcp.ElapsedIs | micropython-esp32/extmod/modlwip.c:523-526 | The elapsed time is right on the 32-bit clock, up to its wrap, whenever it is less than 2^32 |
| Framer.FrameRuns | micropython-esp32/esp32/mptask.c:492-534 | From any state between frames, a frame of 1 to 137 payload bytes is handed over once, whatever its bytes are, with as much of it as py_data has room for: all of it up to 125. The source writes the bytes from the 126th on past py_data; here they are dropped |
| Framer.FrameRunsIff | micropython-esp32/esp32/mptask.c:492-534 | A frame is handed over whole, and nothing else is, exactly when it has 1 to 125 payload bytes; more do not fit py_data |
| Framer.LongFrameDropped | micropython-esp32/esp32/mptask.c:519-525 | A frame of more than 137 bytes is given up after 138 of them without being handed over; those from the 126th on, which the source writes past py_data, are dropped here |
| Framer.PayloadByte | micropython-esp32/esp32/mptask.c:503-532 | A payload byte is stored even if it is a start byte; the last one hands the buffer over |
| Framer.FramesRun | micropython-esp32/esp32/mptask.c:492-534 | Any concatenation of frames hands over exactly their payloads, in order |
| Framer.EmptyFrameSwallows | micropython-esp32/esp32/mptask.c:508-526 | A frame without payload is not handed over and swallows the 137 bytes after it, whatever they are; those from the 126th on, which the source writes past py_data, are dropped here |
| Framer.EmptyFrameSwallowsFrame | micropython-esp32/esp32/mptask.c:508-526 | So the next frame, of any 1 to 125 bytes, is not handed over |
| Upload.ChunkStored | micropython-esp32/esp32/mptask.c:354-359 | A chunk is appended to the bytes stored so far |
| Upload.UploadWrites | micropython-esp32/esp32/mptask.c:340-383 | Start, any number of chunks of at most 1024 bytes together, and commit, sent byte by byte, write one file: the concatenation of the chunks |
| Upload.StopDiscards | micropython-esp32/esp32/mptask.c:340-383 | After a stop no file is written, whatever chunks and commits come, until another start |
| Upload.CommandLoop.ReceiveByte | micropython-esp32/esp32/mptask.c:492-534 | The byte handler over its static variables is the specified step of framer and upload |
| Upload.CommandLoop.ReceiveBytes | micropython-esp32/esp32/mptask.c:492-534 | Bytes received one after the other leave the state the framing of all of them leaves, with the handed-over frames run in order |
| Upload.CommandLoop.ReceiveUpload | micropython-esp32/esp32/mptask.c:492-534 | A session of a start, chunks and a commit, received byte by byte, adds one file, the concatenation of the chunks |
| Upload.CommandLoop.ParseData | micropython-esp32/esp32/mptask.c:331-383 | Dispatching a buffer has the specified effect on the upload state |
| Base64.GroupBits | micropython-esp32/extmod/modubinascii.c:162-181 | Three bytes joined to 24 bits are the four 6-bit numbers joined to 24 bits, and one or two bytes with zero bits for the missing ones (RFC 4648, section 4) |
| Base64.CharIsTableOne | micropython-esp32/extmod/modubinascii.c:184-201 | The second pass maps numbers to characters as table 1 of the RFC does |
| Base64.SextetsLength | micropython-esp32/extmod/modubinascii.c:154-181 | The first pass writes exactly the length that was computed for it |
| Base64Text.EncodeAt | micropython-esp32/extmod/modubinascii.c:154-201 | Every character of an encoding is the one section 4 of RFC 4648 puts there: the next six bits of its 24-bit group, or = where they would hold no bit of the input |
| Base64Text.DecodesIff | micropython-esp32/extmod/modubinascii.c:102-151 | Exactly those texts are decoded that have whole quads, and only characters of the alphabet besides = in the last two places |
| Base64Text.DecodeRefuses | micropython-esp32/extmod/modubinascii.c:119-149 | Which character is refused first and which error that is: of the first quad with one that does not fit, the last; a misplaced = is a padding error, any other an invalid character |
| Base64Laws.RoundTrip | micropython-esp32/extmod/modubinascii.c:102-204 | Decoding an encoding gives the bytes back, for every input |
| Base64Laws.LengthIff | micropython-esp32/extmod/modubinascii.c:109-150 | The decoder fills exactly the length it allocated, except exactly when the last quad has = in its third place and another character in its fourth |
| Base64Laws.StrayPaddingDecodes | micropython-esp32/extmod/modubinascii.c:109-150 | There is such a text, AA=A: one byte is decoded and three are allocated |
| Base64Laws.ReencodeIff | micropython-esp32/extmod/modubinascii.c:102-204 | Encoding what was decoded gives the text back exactly when its padding is canonical |
| Base64Codec.B2aBase64 | micropython-esp32/extmod/modubinascii.c:154-204 | Both in-place passes over the buffer compute the encoding and its newline and fill the buffer |
| Base64Codec.A2bBase64 | micropython-esp32/extmod/modubinascii.c:102-151 | The decoder computes the specified result or error, and returns it exactly unless there is stray padding |
| Base64Codec.DecodeQuad | micropython-esp32/extmod/modubinascii.c:119-149 | One quad: the classification loop from the last character to the first, and one to three bytes out |
| Hex.HexRoundTrip | micropython-esp32/extmod/modubinascii.c:38-99 | unhexlify undoes hexlify without separator |
| Hex.HexlifyAt | micropython-esp32/extmod/modubinascii.c:52-69 | Each byte is written as its high and its low digit in lower case, with the separator behind it if another byte follows |
| Hex.UnhexlifyRefuses | micropython-esp32/extmod/modubinascii.c:77-90 | An odd length is refused as such, and otherwise any character that is no hex digit |
| Hex.UnhexlifyIff | micropython-esp32/extmod/modubinascii.c:73-99 | Exactly even strings of hex digits are accepted, and hexlify gives them back in lower case |
| Hex.HexLengthIff | micropython-esp32/extmod/modubinascii.c:45-51 | The allocated length is the length written exactly when that is below 2^32, unless nothing is to be separated: then it wraps to 2^32 - 1 |
| Hex.HexlifyBytes | micropython-esp32/extmod/modubinascii.c:38-70 | The result starts with the specified characters, and is them exactly unless nothing is to be separated |
| Hex.UnhexlifyBytes | micropython-esp32/extmod/modubinascii.c:73-99 | The loop over single digits computes the specified bytes or error |
| EtsRing.PostAppends | micropython-esp32/esp8266/ets_alt_task.c:84-103 | A post appends to the ring, or is refused exactly when the ring is full and then changes nothing; -1 marks full, equal indices empty |
| EtsRing.TakesOldest | micropython-esp32/esp8266/ets_alt_task.c:135-148 | The dispatch takes the oldest event and leaves the others in order |
| EtsRing.KeepsSlotsIff | micropython-esp32/esp8266/ets_alt_task.c:84-103 | For ring lengths 1 to 255: posts and dispatches keep the signed 8-bit indices inside the ring, whatever its state, exactly when it has at most 127 slots |
| EtsTable.PostWaits | micropython-esp32/esp8266/ets_alt_task.c:78-109 | A posted event waits last in the ring of its priority and is noted as accepted, exactly unless that ring is full; all other rings are as they were |
| EtsTable.EntryFlows | micropython-esp32/esp8266/ets_alt_task.c:78-154 | An event accepted at the end of one ring, or entered from its front, keeps every ring first-in first-out |
| EtsTable.RunFlows | micropython-esp32/esp8266/ets_alt_task.c:78-154 | Over any run of posts and passes, with posts from interrupts and handlers in between, each handler has been entered with exactly the oldest accepted events, in order |
| EtsTable.PassEnters | micropython-esp32/esp8266/ets_alt_task.c:130-152 | A pass enters each handler at most once, in table order, and every one whose event was waiting when it began |
| EtsLoop.Loop.EtsPost | micropython-esp32/esp8266/ets_alt_task.c:78-109 | The in-place post puts the event behind those that wait in the ring of its priority, or reports it full and changes nothing; no other ring changes |
| EtsLoop.Loop.RunHandler | micropython-esp32/esp8266/ets_alt_task.c:133-148 | The handler is entered with the oldest event |
| EtsLoop.Loop.LoopIter | micropython-esp32/esp8266/ets_alt_task.c:117-154 | One pass of the loop is the specified pass; progress is reported exactly when some handler ran |
| EtsClock.HighWordIff | micropython-esp32/esp8266/ets_alt_task.c:122-127 | If the high word was right at the last poll it is right now exactly when less than one turn of the low word has passed |
| RtcTime.MicrosOfTurns | micropython-esp32/esp8266/machine_rtc.c:114-117 | A whole turn of the tick counter is exactly cal * 2^20 microseconds, so no fraction is lost |
| RtcTime.MicrosRate | micropython-esp32/esp8266/machine_rtc.c:114-117 | A number of ticks takes cal/4096 microseconds each, with what is left of the last microsecond dropped |
| RtcTime.OverflowIff | micropython-esp32/esp8266/machine_rtc.c:111-120 | The overflow-corrected time is exact if and only if the counter is read again within one turn |
| RtcTime.Rtc.ReadAll | micropython-esp32/esp8266/machine_rtc.c:101-121 | Between sets time never runs back: any sequence of reads, each less than a turn after the one before, gives the unbounded clock at each of them, in non-descending order, as long as 64 bits hold it |
| RtcTime.Rtc.SetUs | micropython-esp32/esp8266/machine_rtc.c:89-99 | After a set the clock shows the time set and runs at the calibration given |
| RtcTime.Rtc.GetUs | micropython-esp32/esp8266/machine_rtc.c:101-121 | A read within one turn gives the time of an unbounded tick counter, modulo 2^64 |
| RtcTime.Rtc.SleepAndWake | micropython-esp32/esp8266/machine_rtc.c:123-127 | After a prepared deep sleep the clock goes on from the prepared time plus the sleep |
| OneWireRegister.StepsAreShifts | micropython-esp32/esp8266/modonewire.c:88-98 | The bit loop depends only on crc xor byte |
| OneWireRegister.ShiftByInjective | micropython-esp32/esp8266/modonewire.c:88-98 | The step is one-to-one in crc xor byte |
| OneWireRegister.ShiftByOnto | micropython-esp32/esp8266/modonewire.c:88-98 | The step is onto |
| OneWireCrc.OnewireCrc8 | micropython-esp32/esp8266/modonewire.c:82-100 | The nested loop computes the specified CRC |
| OneWirePolynomial.CrcDivides | micropython-esp32/esp8266/modonewire.c:82-100 | The CRC, its lowest bit the coefficient of x^7, is a remainder of the message, in the order its bits are sent, modulo x^8 + x^5 + x^4 + 1 |
| OneWirePolynomial.RemainderIff | micropython-esp32/esp8266/modonewire.c:82-100 | And no other byte is one |
| OneWireCrc.OneByteDetected | micropython-esp32/esp8266/modonewire.c:82-100 | Messages of one length that differ in exactly one byte have different CRCs |
| OneWireCrc.CrcLinear | micropython-esp32/esp8266/modonewire.c:82-100 | The CRC of the xor of two messages is the xor of their CRCs |
| OneWireCrc.AppendedIff | micropython-esp32/esp8266/modonewire.c:82-100 | A message followed by its own CRC, and by no other byte, has CRC zero |

## Left out

- Register writes, pin drivers, ADC, UART, NeoPixel, flash and Wi-Fi calls: hardware effects.
- lwIP, TLS, FatFs, re1.5, uzlib and berkeley-db internals; an uploaded file is a sequence of bytes, a pbuf chain a sequence of non-empty buffers.
- The object system, argument parsing, printing, module tables; a raised exception is a failure result.
- PWM: masks are sets of pin numbers; the `critical` spin lock, the enable mask of `gpio_output_set` and the FRC1 registers are not modelled; the bus clock is 80 MHz; the `break` in the sort's inner loop is part of its loop condition.
- PwmDriver.Pwm.Start: its stores are one step; PwmBuffers models interrupts between them, except among the stores of a direct start up to the timer load, before which the timer cannot fire.
- PwmHandler.DirectStartIff: says nothing about a timer that is already running, which is never started directly.
- JSON: `dumps` (its printer is not part of this model), errors of the stream, the rounding of decimals (their value is computed over the reals, and a loaded decimal is kept as its text), builds without floating point (which refuse every decimal), and dictionary keys that compare equal across types (`1`, `true` and `1.0`, which only texts that are not JSON can have): they count as different keys. `EveryJsonTextLoads` takes a pair of surrogate escapes as two characters, as the source does; RfcStringIff says what RFC 4627 means.
- HeapQ.List.HeapPush: the comparison is a pure strict weak order; a comparison with effects or exceptions is not modelled.
- HeapQ.HeapSort: is the composition of heapify and pops that the module's documentation describes; the source has no such function.
- UTimeQ.Queue.HeapPush: while anything waits the caller owes a time within half a period of the last popped one, and always one below the clock's period.
- Frame buffer: `text` (the font table is not part of this model), `rect`, `hline` and `vline` (calls of the fill), grey-scale buffers with an odd stride, a stride below the width, the 16-bit wrap of the rounded stride, and 32-bit overflow of `x + w` for extreme arguments. A buffer is an array of units of 16 bits, of which byte formats use eight.
- FrameBufMove.Scroll: says nothing for steps with which the source's loops never meet their end tests (ScrollEndsIff).
- FrameBufMove.Blit: source and destination share no memory.
- I2cMaster.SoftI2c.WriteTo: promises the waveform only for slaves that never stretch SCL as long as the timeout, and that leave SDA alone where the master drives it; delays are not modelled.
- I2cMaster.SoftI2c.ReadFrom: as for WriteTo; a read of no bytes is covered only if the slave leaves SDA alone after the address.
- I2C: the STOP of initialisation, scanning, and the memory and register transfers, which are sequences of the writes and reads modelled.
- I2cMaster.SoftI2c.End: after a timeout nothing is said about the wires.
- uctypes: `sizeof` of a bytearray, which is its length; the conversion between values and the bytes loaded and stored; indexing the bytearray that an array of bytes is loaded as; pointers are not followed and indices are not negative; descriptor words are taken apart already; reading a signed bit field, which the source refuses; printing.
- TCP: sending, listening, accepting and connecting, UDP; the reference counts of buffers; the assertion that rejects a blocking read on a socket that was never connected is a precondition.
- TCP: a user callback that itself reads the socket while it is being polled; of the error table only the branch for lwIP 1.4.1 and later.
- LwipTcp.Socket.Receive: a wait longer than the turns it is given ends as Waiting, which the source would go on with.
- Serial framer: dispatch to sensors and motors, and the reply to the host.
- Upload.CommandLoop.ReceiveByte: the payload of a frame of more than 125 bytes runs past py_data in the source; those writes are dropped here, and what they overwrite is not modelled.
- Upload.CommandLoop.ParseData: a chunk that would run past either buffer sets a flag, after which nothing is claimed, where the source copies out of bounds; commands to other devices change nothing here.
- Hex.HexlifyBytes: of no bytes with a separator it returns the 2^32 - 1 bytes the wrapped length asks for, all zero, where the source has whatever is there; output of 2^32 bytes and more, which has no place in a 32-bit address space, is left out.
- Base64Codec.A2bBase64: after stray padding the unwritten rest of the buffer is zero here and arbitrary in the source.
- Event rings: FIRST_PRIO is that of SDKs before 1.5 (later ones have 0); the interrupt lock, which stays taken when a post is refused; the watchdog; `ets_run`; priorities outside the table, which loop for ever.
- EtsLoop.Loop.RunHandler: hands the event over by value; the source passes a pointer to its slot, which a post by the handler itself may overwrite.
- EtsLoop.Loop.EtsTask: registers each priority once, before posts to it.
- RTC: the calibration routine, alarms and user memory.
- `modurandom.c`, `machine_spi.c`, `moduselect.c`, cooked console output, build tools, examples and documentation: easy members next to the cores above, or configuration.

# revactor in Dafny

A model of the core of revactor, an Erlang-style actor library for Ruby
built on fibers and the Rev event loop, with proofs about that model.

The modules follow the library's files:

- **Base** (`base.dfy`): `Option`, `Result`, and the Ruby exceptions the
  core raises (`ArgumentError`, `RuntimeError`, `NoMethodError`,
  `EOFError`, `HttpClientError`, `URI::InvalidURIError`) as values.
- **Values** (`values.dfy`): message values (nil, booleans, integers,
  symbols, byte strings, object references, arrays) and the `===`
  matching that receive rules use, including `Tuple#===`.
- **Selective** (`selective.dfy`): value-level specification of one pass of
  `Mailbox#receive`, of `Filter#match`, `Array#delete_at` and the
  scheduler's de-duplicating push.  It also holds the lemmas about the
  scan, and the as-written and intended versions of the two receive
  defects.
- **Actors** (`actors.dfy`): the imperative core as classes:
  - `Actor` and `Registry` (`actor.rb`);
  - `Mailbox`, `Timer`, `Filter`, and `ReceiveCall` (the state of one
    `receive` between fiber suspensions) (`mailbox.rb`);
  - `Scheduler` (`scheduler.rb`).

  Methods are proved against the Selective functions.
- **LineCodec** and **PacketCodec** (`line.dfy`, `packet.dfy`):
  `Filter::Line` and `Filter::Packet`.  Each is a class whose `Decode`
  method is proved equal to a decode function.  Round-trip, conservation
  and fragmentation lemmas are proved about that function.
- **Sockets** (`sockets.dfy`): the filter set up, the decode and encode
  chains, and the active-mode state machine of the TCP and UNIX sockets
  and listeners.
- **Http** (`http.dfy`): `HttpResponse` header normalisation, `body`
  accumulation with its length checks, and the redirect loop of
  `HttpClient.request`.

Modelling decisions:

- `Actor.current` and the scheduler are explicit parameters of the
  methods that use them.
- A fiber suspension (`reschedule`) is the end of one `ReceiveCall.Pass`
  that returns `Suspended`.  Appends and timer firings happen between
  passes.
- A fiber resume is an oracle (`resume(i)`) that reports how the i-th
  resume ended: yielded, finished, FiberError, or raised.  It also
  reports which actors the resumed code enqueued.
- Watchers' `enable`/`disable` are a boolean field.
- Messages a socket sends to its receiver are appended to an `outbox`.
- Data arriving from the network, `read_body` results and the outcome of
  each HTTP request are parameters.

The shown files come from different versions of the library, and the
model keeps the differences visible instead of hiding them:

- `dead?` reads `@_dead` (lib/revactor/actor.rb:33,122), while the
  scheduler writes `@dead` (lib/revactor/scheduler.rb:63,78).  The model
  has one flag, `Actor.dead`, which both write and `dead?` reads.  Taken
  literally, `handle_exit` would never make `dead?` true.
- `actor.fiber`, `@links`, `notify_exited`, `Actor.scheduler` and
  `actor._scheduler` are used by `scheduler.rb` and `mailbox.rb` but not
  defined in `actor.rb`.  The model reads them as follows:
  - the resume of `actor.fiber` is the oracle;
  - `links` is a field fixed at creation (`Actor.new` gives `[]`);
  - `notify_exited` is a recorded `ExitEvent`;
  - both scheduler names are the one `Scheduler` passed in.
- `ActorError` (lib/revactor/actor.rb:55,70) is not defined anywhere.
  `receive` outside an actor is not modelled.

Behaviours of the code as written that the model keeps:

- `Filter#after(0)` sets the Filter's own `@timed_out`, not the mailbox's.
  A filter holding only `after(0)` therefore arms no timer, and `receive`
  rejects it as an "empty filter".
- `active = false` on a socket stores false but leaves the watcher
  enabled.
- `HttpResponse#body` sets `@body = ""` before reading.  After a raise,
  the partial body stays memoised, and the next call returns it as
  the body.
- `Line#decode` with empty data raises (`lines.first` is nil, and
  `nil.size` is a NoMethodError).  The model returns that error rather
  than excluding the input.

## Model

| member | source | states |
|---|---|---|
| Values.MatchFromAll | lib/revactor.rb:18-22 | the early-return loop of `Tuple#===` from position n accepts exactly when every pattern position from n matches the element there (nil past the end) |
| Values.TupleNeedsArray | lib/revactor.rb:19 | a Tuple pattern never matches a value that is not an Array |
| Values.TupleMatchIff | lib/revactor.rb:18-22 | a Tuple matches an array iff `self[n] === obj[n]` for every n below the pattern's size |
| Values.TuplePrefix | lib/revactor.rb:20 | elements past the pattern's size are ignored, as `T[:tcp, sock]` matches `[:tcp, sock, data]` |
| Values.EmptyTupleMatchesArrays | lib/revactor.rb:18-22 | the empty Tuple matches every array and nothing else |
| Values.TupleShortPadsNil | lib/revactor.rb:20 | an array shorter than the pattern matches as if padded with nil |
| Values.TupleObjectMatchesEmpty | lib/revactor.rb:20 | `T[Object]` matches `[]` |
| Selective.FirstRule | lib/revactor/mailbox.rb:142-145 | the result is the first rule in declaration order whose pattern matches; none exists when nothing matches |
| Selective.MatchAction | lib/revactor/mailbox.rb:142-145 | `Filter#match` gives an action iff some rule matches, and it is the action of the first matching rule |
| Selective.FirstMatchFrom | lib/revactor/mailbox.rb:46-58 | the first position at or after j whose message some rule matches; every message between j and it is unmatched; none means no message from j matches |
| Selective.ScanPass | lib/revactor/mailbox.rb:46-58 | one scan never moves `processed_upto` back or past the queue end, finds a hit iff some unscanned message matches, and stops `processed_upto` at the hit |
| Selective.DeleteAt | lib/revactor/mailbox.rb:76 | `delete_at(i)` in range removes exactly element i, keeps the others in order (a permutation minus that element); out of range it returns nil and changes nothing |
| Selective.AppendKeepsSkipped | lib/revactor/mailbox.rb:46-53 | messages already skipped stay skipped after appends, so they need no re-test after a suspension |
| Selective.PassProgress | lib/revactor/mailbox.rb:33-65 | `processed_upto` never decreases, never exceeds the queue size, and reaches the end on a suspending pass |
| Selective.PassSuspends | lib/revactor/mailbox.rb:45-65 | a pass suspends iff no unscanned message matches and no timeout action is due; then the queue is unchanged and everything counts as scanned |
| Selective.PassTimesOut | lib/revactor/mailbox.rb:61-73 | timed out with no match: the timeout action is called with no argument and the queue is unchanged |
| Selective.PassTimeoutDropsMatch | lib/revactor/mailbox.rb:61-73 | timed out when a rule matched: the matching rule's action is called with no argument and no message is removed |
| Selective.PassRemovesAsWritten | lib/revactor/mailbox.rb:46-76 | not timed out, first match at k from p0: the message at index p0 + 2(k - p0) is removed and passed; that is the match iff k == p0 |
| Selective.WrongIndexRemoved | lib/revactor/mailbox.rb:46-57 | with queue [:a, :b, :c] and a rule for :b, the action receives :c and [:a, :b] remains |
| Selective.TimeoutSwallowsMatch | lib/revactor/mailbox.rb:61-73 | with [:b] queued, a rule for :b and the timer fired, the rule's action runs without the message and :b stays queued |
| Selective.IntendedRemovesFirstMatch | lib/revactor/mailbox.rb:45-76 | the intended pass removes exactly the earliest matching message, keeps the others in order, and hands it to its first matching rule |
| Selective.IntendedPrefersMessage | lib/revactor/mailbox.rb:60-61 | with the timer fired, the intended pass still delivers a matching message and removes it |
| Selective.Pushed | lib/revactor/scheduler.rb:31 | the queue is unchanged exactly when the actor is already last; otherwise the actor is appended |
| Selective.PushedKeepsNoAdjacentDup | lib/revactor/scheduler.rb:31 | the last-entry check never creates two equal neighbours |
| Selective.PushAllProps | lib/revactor/scheduler.rb:84-87 | enqueuing the links in turn keeps the old queue as a prefix, adds only links, leaves every link queued, and creates no equal neighbours |
| Actors.Registry.constructor | lib/revactor/actor.rb:25 | the registry starts empty |
| Actors.Registry.Lookup | lib/revactor/actor.rb:77-79 | `Actor[key]` is the registered actor iff the key is registered, nil otherwise |
| Actors.Registry.Register | lib/revactor/actor.rb:82-88 | non-actors raise ArgumentError and change nothing; an actor becomes the key's entry with no other key changed |
| Actors.Registry.Delete | lib/revactor/actor.rb:91-93 | returns what the key held, and removes only that key |
| Actors.Actor.constructor | lib/revactor/actor.rb:37-41 | a new actor is alive with an empty, fresh mailbox and an empty dictionary |
| Actors.Actor.New | lib/revactor/actor.rb:29-45 | no block raises ArgumentError; otherwise a fresh live actor with empty mailbox, dictionary and links is enqueued on the scheduler |
| Actors.Actor.Get | lib/revactor/actor.rb:102-104 | a stored key reads its value, a missing key nil |
| Actors.Actor.Set | lib/revactor/actor.rb:107-109 | get after set returns the value; other keys and the dead flag are unchanged |
| Actors.Actor.Delete | lib/revactor/actor.rb:112-114 | returns the old value or nil, and removes only that key |
| Actors.Actor.Send | lib/revactor/actor.rb:125-135 | returns the message; a dead actor's mailbox and the run queue are unchanged; a live actor gets it at the mailbox tail and is enqueued |
| Actors.Mailbox.constructor | lib/revactor/mailbox.rb:17-20 | an empty queue and no timer |
| Actors.Mailbox.Append | lib/revactor/mailbox.rb:23-25 | the message goes at the tail; all earlier messages are unchanged |
| Actors.Mailbox.BeginReceive | lib/revactor/mailbox.rb:28-41 | no block raises ArgumentError; otherwise the timeout state is cleared and an empty filter on this mailbox is yielded |
| Actors.Mailbox.StartScan | lib/revactor/mailbox.rb:42-45 | an empty filter (no rules, no timer) raises "empty filter"; otherwise scanning starts at `processed_upto` 0 |
| Actors.Timer.constructor | lib/revactor/mailbox.rb:96-99 | the timer records its timeout and owning actor |
| Actors.Timer.OnTimer | lib/revactor/mailbox.rb:101-104 | the owner's mailbox is flagged timed out, nothing else in it changes, and the owner is enqueued |
| Actors.Filter.constructor | lib/revactor/mailbox.rb:110-113 | a new filter has no rules and is bound to its mailbox |
| Actors.Filter.When | lib/revactor/mailbox.rb:117-120 | no block raises ArgumentError; otherwise the rule is appended last |
| Actors.Filter.After | lib/revactor/mailbox.rb:124-139 | raises when a timer is armed or the timeout is negative; the action defaults to a no-op; a positive timeout arms an attached timer for the current actor; zero arms none, sets only the Filter's flag and enqueues the current actor |
| Actors.Filter.Match | lib/revactor/mailbox.rb:142-145 | the first matching rule's action in declaration order, nil iff none |
| Actors.ReceiveCall.constructor | lib/revactor/mailbox.rb:32-33 | a receive starts unfinished with `processed_upto` 0 |
| Actors.ReceiveCall.Scan | lib/revactor/mailbox.rb:46-58 | the `each_with_index` loop ends in the state ScanPass describes, with the action of the first match and the code's `matched_index` |
| Actors.ReceiveCall.Pass | lib/revactor/mailbox.rb:45-76 | one pass changes queue and `processed_upto` as PassSpec states; once an action is chosen the timer is detached and nil |
| Actors.ReceiveCall.PassIntended | lib/revactor/mailbox.rb:45-76 | the corrected pass changes queue and `processed_upto` as IntendedPass states, with the same timer clean-up |
| Actors.Enqueued | lib/revactor/scheduler.rb:28-40 | the old queue, then the actor unless it is already last, then `Actor.current` without that check when not running; the length says which were added |
| Actors.ExitEvents | lib/revactor/scheduler.rb:80-88 | no links: one log entry iff there is an exception; otherwise one notification per link, in order, with the actor and exception |
| Actors.Scheduler.constructor | lib/revactor/scheduler.rb:18-20 | empty queue, not running |
| Actors.Scheduler.Enqueue | lib/revactor/scheduler.rb:28-40 | non-actors raise ArgumentError and change nothing; otherwise the queue becomes Enqueued(...) and the scheduler is running |
| Actors.Scheduler.Start | lib/revactor/scheduler.rb:50-53 | `run` returns at once when already running; either way it is running afterwards |
| Actors.Scheduler.HandleExit | lib/revactor/scheduler.rb:75-90 | the actor is dead; the events are ExitEvents; each link is enqueued in order |
| Actors.Scheduler.ExitFor | lib/revactor/scheduler.rb:59-67 | finished or FiberError: `handle_exit` with no exception; raised: with the exception; yielded: only if the actor is dead |
| Actors.Scheduler.Step | lib/revactor/scheduler.rb:57-68 | one resume: `handle_exit` is called with the exception ExitFor gives from the outcome and the dead flag before the resume; the actor is dead afterwards iff it was before or exited; the queue is the old one with the actors enqueued meanwhile pushed, then on an exit its links; those land at or after this position |
| Actors.Scheduler.ResumeAll | lib/revactor/scheduler.rb:57-68 | `@queue.each` visits the queue in order, including entries appended during the pass, up to the budget; the queue afterwards is PassQueue: the old queue with, step by step, the actors each resume enqueued and, on an exit, the actor's links pushed; each step's exit follows from its outcome and the actor's dead flag before that step (dead before the pass or exited earlier in it); the dead flags afterwards are the old ones plus the actors that exited |
| Actors.Scheduler.RunPass | lib/revactor/scheduler.rb:56-71 | a complete pass resumes exactly the actors of PassQueue (the old queue plus, in order, those enqueued and linked during the pass) and leaves the queue empty; an incomplete one leaves PassQueue queued; every actor resumed was queued, enqueued by a resume or linked to an exiting actor; each exit follows from the outcome and the dead flag before that step; exactly the actors that were dead or exited are dead |
| Actors.StepQueue | lib/revactor/scheduler.rb:57-68 | one step only appends to the queue, and only actors its resume enqueued or, on an exit, the actor's links |
| Actors.PassQueueOrigin | lib/revactor/scheduler.rb:56-71 | nothing enters the queue during a pass but the actors the resumes enqueue and the links of actors that exit |
| Actors.PassQueueQuiet | lib/revactor/scheduler.rb:56-71 | a pass whose resumes enqueue nothing and whose exiting actors have no links leaves the queue as it found it |
| LineCodec.Encode | lib/revactor/filters/line.rb:47-49 | every line is followed by the delimiter, so a non-empty encoding ends in it |
| LineCodec.Split | lib/revactor/filters/line.rb:31 | `split(d, -1)`: empty iff the string is empty; the fields hold no delimiter and rejoin to the string |
| LineCodec.Chomp | lib/revactor/filters/line.rb:43 | drops exactly one trailing CRLF (preferred over a lone LF), LF or CR, and nothing else |
| LineCodec.DecodeConserves | lib/revactor/filters/line.rb:30-44 | old buffer plus data equal the raw lines, each followed by the delimiter, plus the new buffer |
| LineCodec.DecodeWithoutDelimiter | lib/revactor/filters/line.rb:31-38 | data without the delimiter yields no lines and is appended to the buffer |
| LineCodec.DecodeOverLimit | lib/revactor/filters/line.rb:33-35 | when buffer plus first field exceed the limit, 'input buffer full' is raised |
| LineCodec.DecodeEmptyData | lib/revactor/filters/line.rb:31-33 | empty data raises NoMethodError whatever the buffer holds |
| LineCodec.EncodeUnique | lib/revactor/filters/line.rb:47-49 | the framing of delimiter-free lines splits back only one way |
| LineCodec.EncodeAppend | lib/revactor/filters/line.rb:47-49 | encoding a concatenation is concatenating the encodings |
| LineCodec.DecodeFragments | spec/line_filter_spec.rb:23-35 | feeding a then b yields the same lines and buffer as feeding a + b |
| LineCodec.DecodeEncode | lib/revactor/filters/line.rb:30-49 | decoding the encoding of delimiter-free lines from an empty buffer yields those lines and an empty buffer |
| LineCodec.EncodeExample | spec/line_filter_spec.rb:19-21 | foo, bar, baz encode to "foo\nbar\nbaz\n" |
| LineCodec.DecodeExample | spec/line_filter_spec.rb:15-17 | "foo\nbar\r\nbaz\n" decodes to foo, bar, baz |
| LineCodec.LineFilter.constructor | lib/revactor/filters/line.rb:23-27 | empty buffer; the delimiter defaults to "\n" and the limit to 1048576 |
| LineCodec.LineFilter.Decode | lib/revactor/filters/line.rb:30-44 | returns the chomped lines and moves the buffer as DecodeSpec says; on a raise the buffer is unchanged |
| LineCodec.LineFilter.EncodeLines | lib/revactor/filters/line.rb:47-49 | the encoding decodes back to the same lines on a fresh filter |
| PacketCodec.LimitValues | lib/revactor/filters/packet.rb:50 | the size limits are 65536 and 4294967296 |
| PacketCodec.Unpack | lib/revactor/filters/packet.rb:35 | a k-byte prefix reads as a value below 256^k |
| PacketCodec.Pack | lib/revactor/filters/packet.rb:51 | a size packs into exactly k bytes |
| PacketCodec.UnpackPack | lib/revactor/filters/packet.rb:35-51 | unpacking a packed size below 256^k gives it back |
| PacketCodec.PackUnpack | lib/revactor/filters/packet.rb:35-51 | packing an unpacked prefix gives back the bytes |
| PacketCodec.PackExamples | spec/packet_filter_spec.rb:19-32 | 13 packs to 00 0d ('n') and 00 00 00 0d ('N') |
| PacketCodec.DrainStops | lib/revactor/filters/packet.rb:31-44 | decoding stops only when too few bytes remain for a prefix or a payload, and never grows the buffer |
| PacketCodec.DrainConserves | lib/revactor/filters/packet.rb:27-44 | the bytes held equal the frames emitted, re-encoded, plus the pending prefix in data mode, plus the buffer |
| PacketCodec.DrainAppend | spec/packet_filter_spec.rb:34-52 | decoding in two calls yields the same frames and end state as decoding the bytes at once |
| PacketCodec.DrainFrames | lib/revactor/filters/packet.rb:27-53 | feeding the framing of payloads that fit yields exactly those payloads and an empty buffer in prefix mode |
| PacketCodec.EncodeFrames | lib/revactor/filters/packet.rb:48-53 | succeeds iff every payload is below 256^k bytes, giving each payload after its big-endian size; otherwise ArgumentError |
| PacketCodec.DecodeEncode | spec/packet_filter_spec.rb:14-32 | a fresh decoder decodes an encoding back into its payloads |
| PacketCodec.OverlengthExample | spec/packet_filter_spec.rb:54-58 | a 65537-byte payload with a 2-byte prefix raises ArgumentError |
| PacketCodec.PacketFilter.constructor | lib/revactor/filters/packet.rb:14-24 | prefix mode, size 0, empty buffer |
| PacketCodec.PacketFilter.New | lib/revactor/filters/packet.rb:14-24 | the size defaults to 2; anything but 2 or 4 raises ArgumentError |
| PacketCodec.PacketFilter.Decode | lib/revactor/filters/packet.rb:27-45 | the loop's frames and new state are Drain of the old state with the data buffered |
| PacketCodec.PacketFilter.Encode | lib/revactor/filters/packet.rb:48-53 | raises iff some payload is too long; on success a fresh decoder recovers the payloads |
| Sockets.SymbolToFilter | lib/revactor/tcp.rb:264-270 | :line and :packet map to their classes; every other name raises ArgumentError naming it (UNIX: lib/revactor/unix.rb:251-257) |
| Sockets.Construct | lib/revactor/filters/packet.rb:14-24 | `cls.new(*args)` gives a fresh filter of that class; Packet accepts only sizes 2 and 4, defaulting to 2; Line takes the options hash's `:delimiter` and `:maxlength`, each defaulting to "\n" and 1048576 |
| Sockets.InitializeFilter | lib/revactor/tcp.rb:241-261 | nil gives [], an unknown symbol or Tuple head raises ArgumentError, a symbol, class or Tuple gives one fresh filter (UNIX: lib/revactor/unix.rb:228-248) |
| Sockets.InitializeAll | lib/revactor/tcp.rb:254-255 | an Array succeeds iff every item does, mapping each item in order |
| Sockets.InitializeAllFirstError | lib/revactor/tcp.rb:254-255 | a failing Array raises the error of its first failing item |
| Sockets.Filterset | lib/revactor/tcp.rb:102 | `[*built]`: one filter, the items of an Array, or nothing for nil |
| Sockets.FiltersetOfNames | lib/revactor/tcp.rb:97-106 | no filter option gives an empty chain; an Array of known names one fresh filter per name in order |
| Sockets.DecodeEntry | lib/revactor/tcp.rb:276 | a filter's decode keeps its kind; a Line filter that raises is unchanged |
| Sockets.FlatMapAppend | lib/revactor/tcp.rb:275-277 | flat-mapping a concatenation decodes the first part first and concatenates the outputs |
| Sockets.DecodeChain | lib/revactor/tcp.rb:273-279 | an empty chain returns [data]; every filter keeps its place (UNIX: lib/revactor/unix.rb:260-266) |
| Sockets.EncodeEntry | lib/revactor/tcp.rb:283 | a Line filter frames with its delimiter, a Packet filter with its prefix; a non-filter raises |
| Sockets.EncodeChain | lib/revactor/tcp.rb:282-284 | an empty chain returns the message unchanged; otherwise one encoded string (UNIX: lib/revactor/unix.rb:269-271) |
| Sockets.EncodeChainIsReverseFold | lib/revactor/tcp.rb:282-284 | the encoding is the left fold of `encode` over the reversed filter set |
| Sockets.ChainRoundTrip | lib/revactor/tcp.rb:273-284 | when each layer decodes what it encodes, the decode chain inverts the encode chain |
| Sockets.LineLayerRoundTrips | lib/revactor/filters/line.rb:30-49 | a fresh Line layer round-trips delimiter-free, already-chomped lines whose first fits the limit |
| Sockets.PacketLayerRoundTrips | lib/revactor/filters/packet.rb:27-53 | a fresh Packet layer round-trips payloads that fit its prefix |
| Sockets.Socket.Deliveries | lib/revactor/tcp.rb:311 | one `[:tcp or :unix, self, msg]` to the receiver per message, in order |
| Sockets.Socket.constructor | lib/revactor/tcp.rb:97-106 | the receiver starts as the controller, with an empty read buffer |
| Sockets.Socket.New | lib/revactor/tcp.rb:97-106 | `@active` is the option when truthy, else false; the controller defaults to the current actor; the filter option's error is raised (UNIX: lib/revactor/unix.rb:80-89) |
| Sockets.Socket.SetActive | lib/revactor/tcp.rb:120-139 | raises during a synchronous call or for a value other than true, false, :once; true or :once deliver a non-empty buffer, :once then returns leaving `@active`; otherwise the state is stored and true/:once enable (UNIX: lib/revactor/unix.rb:103-122) |
| Sockets.Socket.SetController | lib/revactor/tcp.rb:145-150 | non-actors raise ArgumentError; the receiver moves only if it was the controller (UNIX: lib/revactor/unix.rb:128-134) |
| Sockets.Socket.Read | lib/revactor/tcp.rb:155-166 | raises during another synchronous call; returns buffered data at once when there is some and enough; otherwise switches to :once for the current actor (UNIX: lib/revactor/unix.rb:139-151) |
| Sockets.Socket.Deliver | lib/revactor/tcp.rb:311 | the outbox gains one message to the receiver per item, in order, after what it held |
| Sockets.Socket.OnRead | lib/revactor/tcp.rb:306-321 | the chain's filters move on; a filter error or an empty result sends nothing and changes nothing else; otherwise one message per decoded item in order, and :once becomes false and disabled (UNIX: lib/revactor/unix.rb:289-304) |
| Sockets.Listener.constructor | lib/revactor/tcp.rb:344-355 | :active defaults to false, :controller to the current actor, not accepting (UNIX: lib/revactor/unix.rb:327-338) |
| Sockets.Listener.SetActive | lib/revactor/tcp.rb:362-368 | only true, false or :once, else ArgumentError (UNIX: lib/revactor/unix.rb:345-351) |
| Sockets.Listener.SetController | lib/revactor/tcp.rb:374-377 | only actors, else ArgumentError (UNIX: lib/revactor/unix.rb:357-360) |
| Sockets.Listener.Accept | lib/revactor/unix.rb:364-369 | a second accepting actor raises; otherwise the caller becomes the receiver and the listener is enabled (TCP: lib/revactor/tcp.rb:380-385) |
| Http.Lower | lib/revactor/http_client.rb:252 | `downcase` turns a capital into its lower-case letter (32 code points on) and keeps every other character |
| Http.Downcase | lib/revactor/http_client.rb:252 | each character downcased, length kept |
| Http.NormalizeNameIsTranslate | lib/revactor/http_client.rb:251-253 | split on `_`, downcase, join with `-` equals: drop trailing `_`s, then `_` to `-` and capitals to lower case |
| Http.NormalizedShape | lib/revactor/http_client.rb:251-253 | a normalised name holds no capital and no `_` and is no longer than the raw name |
| Http.NormalizeExample | lib/revactor/http_client.rb:250-253 | CONTENT_TYPE becomes content-type |
| Http.HeaderMapKeys | lib/revactor/http_client.rb:251-253 | the header names are exactly the normalised raw names |
| Http.HeaderMapLastWins | lib/revactor/http_client.rb:251-253 | a header's value is that of the last raw field with that normalised name |
| Http.Take | lib/revactor/http_client.rb:256-262 | `delete(k)` yields the value iff the key is present |
| Http.Finish | lib/revactor/http_client.rb:347-351 | the body is returned iff there is no Content-Length or the size equals it |
| Http.BodyRunOk | lib/revactor/http_client.rb:326-351 | a successful body is exactly the data read before the first nil or allowed EOF, has the Content-Length if given, and fits maxlength |
| Http.BodyRunOverlength | lib/revactor/http_client.rb:331-337 | "overlength body" is raised, leaving more than maxlength stored, exactly when the data read outgrows maxlength |
| Http.HttpResponse.constructor | lib/revactor/http_client.rb:240-263 | headers normalised; transfer-encoding, content-type and content-encoding removed and kept apart, content-encoding defaulting to "identity" |
| Http.HttpResponse.Body | lib/revactor/http_client.rb:326-352 | memoised once set; otherwise the reads accumulate into `@body` with the length, EOF and Content-Length rules of BodyRun |
| Http.RequestReturns | lib/revactor/http_client.rb:59-77 | the response returned is the first not followed as a redirect, and every earlier attempt was one |
| Http.RequestExceeded | lib/revactor/http_client.rb:59-92 | "exceeded maximum of 10 redirects" is raised iff all ten attempts were followed redirects |
| Http.RequestNoFollow | lib/revactor/http_client.rb:67-68 | without following, the first HTTP URI's response is returned |
| Http.Request | lib/revactor/http_client.rb:55-92 | follow_redirects defaults to true, else its truthiness; the loop returns what RequestSpec gives: the response, "invalid HTTP URI", "redirect with no location header", or the redirect limit |

## Left out

- Fibers: `Mailbox#reschedule`, `Fiber.yield`, `Fiber.new { run }.resume`
  and lib/revactor/fiber.rb.  A suspension is the end of one
  `ReceiveCall.Pass`, and a resume is an oracle.
- The scheduler's `while true` loop repeats `RunPass` forever.  Only one
  pass is modelled.
- Actors.Scheduler.RunPass: resumes at most `budget` actors, because a
  pass in which every resume enqueues another actor never ends.
  `complete` says whether the end of the queue was reached.
- `Scheduler::Mailbox` (cross-thread delivery over a pipe and a mutex),
  `log_exception` output, `Rev::Loop` `run_once`, and
  `attach`/`detach`/`enable`/`disable` as real watchers.  Enabled and
  attached are booleans.
- Timer durations are carried but not timed.  When the timer fires is an
  event between passes.
- Trap-exit and `notify_exited` semantics: they are not defined in the
  library's files.  Notifications are recorded events.
- `Actor.each` and `Actor#each` (hash iteration), and
  `Actor.spawn`/`start` (aliases of `new`).
- `Scheduler << actor` in `Actor.new` and `Actor#<<`
  (lib/revactor/actor.rb:43, 133) is sent to the `Scheduler` class, which
  the shown files give no class-level `<<`.  The model sends it to a
  scheduler passed in, as `Actors.Scheduler.Enqueue`.
- Actors.Registry.Delete: the optional block of `Hash#delete`, which
  gives the result for a missing key, is not modelled; a missing key
  gives nil.
- Actors.Actor.Delete: the same optional block is not modelled; a
  missing key gives nil.
- `Actor.current` raising `ActorError` outside an actor, and
  `Actor.receive` (a delegation to the current actor's mailbox).
- `Actor::ANY_MESSAGE`: no shown file defines it.
- Pattern `===` for Regexp and Proc is an opaque test (`Pred`).  Classes
  are a fixed set of built-ins.
- Filter objects are modelled as codec values inside the socket.
  User-supplied filter classes other than Line and Packet are left out.
  A Tuple that hands a Packet size to Line yields a stand-in
  `ArgumentError("unsupported filter arguments")`, because what Ruby does
  with an integer as an options hash is not part of this model.
- `LineCodec.Split`: the delimiter is one byte other than space.  Ruby's
  whitespace `split(' ')` and multi-character delimiters are left out.
- Socket and listener I/O: `connect`, `listen`, `write` (including
  `super(encode(data))`), the blocking receive loops inside
  `read`/`write`/`accept`, `on_connection`, and the
  `on_connect`/`on_close`/`on_write_complete` callbacks.
  `Socket.Read` and `Listener.Accept` model the code up to their
  blocking receive.
- `Rev::Buffer` and `IO::Buffer` (lib/revactor/filters/packet.rb:23-40;
  lib/revactor/tcp.rb:105, 130-131, 159-160) are plain byte sequences.  Their
  `read(n)` edge cases, such as a zero-length payload after a `00 00`
  prefix, belong to foreign code that is not part of this model.
- Socket watchers start disabled, since `attach` is not modelled.
- `HttpClient.connect`, `HttpClient#request` and its networking,
  `ssl_handshake`, `HttpClient#controller=` and the response callbacks.
- `URI.parse`, `URI::HTTPS` and the `File.expand_path` redirect
  resolution are foreign calls.  Each attempt's outcome is an `Attempt`
  oracle.
- The block form of `request` (`yield response` then `close`), and
  `HttpResponse#close` and `read_body`.  The `read_body` results are a
  finite script; reads past its end return nil.
- Http.HeaderMap: the fold runs over the fields in the sequence given.
  Ruby 1.8 hash order is not modelled.
- lib/revactor/http.rb (an older duplicate of HttpClient),
  lib/revactor/actorize.rb, proxy.rb, delegator.rb and mongrel.rb, the
  examples and the tools.
- `Revactor::VERSION` and the `Actor::TCP`/`Filter`/`HttpClient`
  constant aliases of lib/revactor.rb.

## Findings

| source | as written | input that shows it | evidently intended | confidence | as-written member | corrected member |
|---|---|---|---|---|---|---|
| lib/revactor/mailbox.rb:46-57 | `processed_upto` is bumped for every skipped message and `matched_index = processed_upto + index` adds the slice index again, so the message removed is at p0 + 2(k - p0) | queue [:a, :b, :c], one rule for :b: the action gets :c, and [:a, :b] stays | remove and pass the first matching message (index k) | high, not executed | Selective.WrongIndexRemoved | Selective.IntendedRemovesFirstMatch |
| lib/revactor/mailbox.rb:61-73 | `return action.call if @timed_out` also fires when a rule matched on the same pass: the matched action is called without the message, and nothing is removed | queue [:b], a rule for :b, timer fired: the :b action runs with no argument and :b stays queued | a matching message wins over the timeout and is removed and passed | high, not executed | Selective.TimeoutSwallowsMatch | Selective.IntendedPrefersMessage |

`Actors.ReceiveCall.Pass` keeps the as-written behaviour of the class as
the library ships it.  `Actors.ReceiveCall.PassIntended` is the corrected
pass on the same state.  It is proved equal to `Selective.IntendedPass`,
which the two corrected members are proved about.

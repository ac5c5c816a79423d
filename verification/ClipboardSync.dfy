/** Clipboard synchronisation between two machines (src/clipboard.rs): what is read for
    sending, how remote content is marked with an owner tag, and why nothing echoes. */
module ClipboardSync {
  import opened Options
  import opened Octets
  import opened ClipboardWire

  type Message = seq<Record>

  const OWNER := "dyn.com.cloudsend.owner"
  const EXCEL := "XML Spreadsheet"

  datatype Side = Host | Client {
    function Peer(): Side {
      if Host? then Client else Host
    }

    function OwnerData(): Bytes {
      if Host? then [1] else [2]
    }

    /** `is_owner` looks for either side's bit, whichever side asks. */
    predicate IsOwner(data: Bytes) {
      data != [] && data[0] % 4 != 0
    }
  }

  // --- reading for sending ---

  /** The formats the program asks the system clipboard for, file lists left aside. */
  predicate Supported(item: Item) {
    match item
    case Special(name, _) => name == EXCEL || name == OWNER
    case Other => false
    case _ => true
  }

  predicate IsTag(side: Side, item: Item) {
    item.Special? && item.name == OWNER && side.IsOwner(item.data)
  }

  predicate Sendable(item: Item) {
    match item
    case Special(name, _) => name != OWNER
    case Text(text) => text != []
    case _ => true
  }

  function Filter(items: seq<Item>, keep: Item -> bool): (r: seq<Item>)
    ensures forall x <- r :: x in items && keep(x)
    ensures forall x <- items :: keep(x) ==> x in r
  {
    if items == [] then []
    else (if keep(items[0]) then [items[0]] else []) + Filter(items[1..], keep)
  }

  function Read(clip: seq<Item>): seq<Item> {
    Filter(clip, Supported)
  }

  predicate Tagged(side: Side, clip: seq<Item>) {
    exists x <- Read(clip) :: IsTag(side, x)
  }

  /** `get_formats_filter`: nothing when the content is tagged and the read is not forced. */
  function Outgoing(side: Side, clip: seq<Item>, force: bool): seq<Item> {
    if !force && Tagged(side, clip) then [] else Filter(Read(clip), Sendable)
  }

  /** `update_clipboard`: what remote content leaves on the clipboard. */
  function Updated(codec: Codec, side: Side, clip: seq<Item>, msg: Message): seq<Item> {
    var items := FromMultiClipboards(codec, msg);
    if items == [] then clip else items + [Special(OWNER, side.OwnerData())]
  }

  /** Either side takes the other's tag as a reason not to send. */
  lemma {:induction false} UpdatedIsTagged(codec: Codec, side: Side, clip: seq<Item>, msg: Message, reader: Side)
    requires FromMultiClipboards(codec, msg) != []
    ensures Tagged(reader, Updated(codec, side, clip, msg))
  {
    var tag := Special(OWNER, side.OwnerData());
    var items := FromMultiClipboards(codec, msg);
    TagFound(items, tag, reader);
  }

  lemma {:induction false} TagFound(items: seq<Item>, tag: Item, reader: Side)
    requires IsTag(reader, tag)
    ensures Tagged(reader, items + [tag])
  {
  }

  // --- what is shared, item by item ---

  /** RTF, HTML and images, texts that are not empty, and the spreadsheet format. */
  predicate Shared(item: Item) {
    match item
    case Text(text) => text != []
    case Rtf(_) => true
    case Html(_) => true
    case Image(_) => true
    case Special(name, _) => name == "XML Spreadsheet"
    case Other => false
  }

  /** Somewhere on the clipboard is an owner tag with one of the two sides' bits. */
  ghost predicate HoldsTag(clip: seq<Item>) {
    exists i :: 0 <= i < |clip| && IsOwnerTag(clip[i])
  }

  predicate IsOwnerTag(item: Item) {
    && item.Special? && item.name == "dyn.com.cloudsend.owner" && item.data != []
    && (item.data[0] % 2 == 1 || item.data[0] / 2 % 2 == 1)
  }

  /** The positions of the shared items, in order. */
  function Positions(clip: seq<Item>): (ps: seq<nat>)
    ensures forall k :: 0 <= k < |ps| ==> ps[k] < |clip| && Shared(clip[ps[k]])
    ensures forall j, k :: 0 <= j < k < |ps| ==> ps[j] < ps[k]
    ensures forall i :: 0 <= i < |clip| && Shared(clip[i]) ==> i in ps
  {
    if clip == [] then []
    else
      var n := |clip| - 1;
      Positions(clip[..n]) + if Shared(clip[n]) then [n] else []
  }

  function Picked(clip: seq<Item>): (r: seq<Item>)
    ensures |r| == |Positions(clip)| && forall k :: 0 <= k < |r| ==> r[k] == clip[Positions(clip)[k]]
  {
    var ps := Positions(clip);
    seq(|ps|, k requires 0 <= k < |ps| => clip[ps[k]])
  }

  lemma {:induction false} FilterConcat(a: seq<Item>, b: seq<Item>, keep: Item -> bool)
    ensures Filter(a + b, keep) == Filter(a, keep) + Filter(b, keep)
  {
    if a == [] {
      assert a + b == b;
    } else {
      assert (a + b)[1..] == a[1..] + b;
      FilterConcat(a[1..], b, keep);
    }
  }

  lemma {:induction false} FilterOne(x: Item, keep: Item -> bool)
    ensures Filter([x], keep) == if keep(x) then [x] else []
  {
  }

  lemma SharedMeans(item: Item)
    ensures Shared(item) <==> Supported(item) && Sendable(item)
  {
  }

  lemma {:induction false} FiltersPick(clip: seq<Item>)
    ensures Filter(Read(clip), Sendable) == Picked(clip)
  {
    if clip != [] {
      var n := |clip| - 1;
      var x := clip[n];
      SharedMeans(x);
      FiltersPick(clip[..n]);
      assert clip == clip[..n] + [x];
      FilterConcat(clip[..n], [x], Supported);
      FilterOne(x, Supported);
      var read := if Supported(x) then [x] else [];
      FilterConcat(Read(clip[..n]), read, Sendable);
      FilterOne(x, Sendable);
      PickedLast(clip);
    }
  }

  lemma {:induction false} PickedLast(clip: seq<Item>)
    requires clip != []
    ensures var n := |clip| - 1;
            Picked(clip) == Picked(clip[..n]) + if Shared(clip[n]) then [clip[n]] else []
  {
  }

  lemma {:induction false} TaggedMeans(side: Side, clip: seq<Item>)
    ensures Tagged(side, clip) <==> HoldsTag(clip)
  {
    forall x | x in clip ensures IsOwnerTag(x) <==> x in Read(clip) && IsTag(side, x) {
      if x.Special? && x.data != [] {
        TagBits(x.data[0]);
      }
    }
    if Tagged(side, clip) {
      var x :| x in Read(clip) && IsTag(side, x);
      var i :| 0 <= i < |clip| && clip[i] == x;
      assert IsOwnerTag(clip[i]);
    }
  }

  lemma TagBits(b: Byte)
    ensures b % 4 != 0 <==> b % 2 == 1 || b / 2 % 2 == 1
  {
  }

  /** What is read for sending, exactly: nothing from a tagged clipboard unless forced, and
      otherwise the shared items in order, each as often as it occurs, and nothing else. */
  lemma {:induction false} OutgoingExactly(side: Side, clip: seq<Item>, force: bool)
    ensures Outgoing(side, clip, force) == if !force && HoldsTag(clip) then [] else Picked(clip)
  {
    TaggedMeans(side, clip);
    FiltersPick(clip);
  }

  /** Each side marks with its own bit. */
  lemma OwnTags(name: string)
    requires name == "dyn.com.cloudsend.owner"
    ensures Special(OWNER, Host.OwnerData()) == Special(name, [1])
    ensures Special(OWNER, Client.OwnerData()) == Special(name, [2])
    ensures IsOwnerTag(Special(name, [1])) && IsOwnerTag(Special(name, [2]))
  {
  }

  /** One machine: the shared system clipboard and the cached last message. */
  class Machine {
    const side: Side
    const codec: Codec
    var clip: seq<Item>
    var last: Message

    constructor (side: Side, codec: Codec, clip: seq<Item>)
      ensures this.side == side && this.codec == codec && this.clip == clip && last == []
    {
      this.side, this.codec, this.clip, last := side, codec, clip, [];
    }

    /** Reading, early return on a tag, then dropping the tag and empty texts. */
    method GetFormatsFilter(force: bool) returns (r: seq<Item>)
      ensures r == Outgoing(side, clip, force)
      ensures r == if !force && HoldsTag(clip) then [] else Picked(clip)
    {
      OutgoingExactly(side, clip, force);
      var data := Read(clip);
      if data == [] {
        return data;
      }
      if !force {
        for i := 0 to |data|
          invariant forall j :: 0 <= j < i ==> !IsTag(side, data[j])
        {
          if IsTag(side, data[i]) {
            return [];
          }
        }
      }
      r := Filter(data, Sendable);
    }

    /** `check_clipboard`; `readable` is whether the system lets the clipboard be read. */
    method CheckClipboard(force: bool, readable: bool) returns (msg: Option<Message>)
      modifies this`last
      ensures var out := if !force && HoldsTag(clip) then [] else Picked(clip);
              msg == if readable && out != [] then Some(CreateMultiClipboards(codec, out)) else None
      ensures last == if msg.Some? then msg.value else old(last)
    {
      if !readable {
        return None;
      }
      var content := GetFormatsFilter(force);
      if content == [] {
        return None;
      }
      last := CreateMultiClipboards(codec, content);
      msg := Some(last);
    }

    /** `update_clipboard_` and `do_update_clipboard_`. */
    method UpdateClipboard(msg: Message, writable: bool)
      modifies this`clip
      ensures clip == if writable then Updated(codec, side, old(clip), msg) else old(clip)
    {
      var items := FromMultiClipboards(codec, msg);
      if items == [] || !writable {
        return;
      }
      items := items + [Special(OWNER, side.OwnerData())];
      clip := items;
    }
  }

  // --- two machines ---

  /** `copies` is everything a user put on this machine's clipboard, `notices` the change
      notifications not yet handled, `inbox` the messages under way to this machine. */
  datatype Node = Node(clip: seq<Item>, notices: nat, inbox: seq<Message>, copies: set<seq<Item>>)

  datatype Sent = Sent(from: Side, msg: Message)

  datatype Net = Net(host: Node, client: Node, sent: seq<Sent>) {
    function At(s: Side): Node {
      if s.Host? then host else client
    }

    function With(s: Side, n: Node): Net {
      if s.Host? then this.(host := n) else this.(client := n)
    }
  }

  /** `burst` is how many notifications one change of the clipboard raised; a failing read or
      write is part of the event, and messages may be handled in any order. */
  datatype Event =
    | Copy(side: Side, clip: seq<Item>, burst: nat)
    | Notice(side: Side, readable: bool)
    | Deliver(side: Side, index: nat, writable: bool, burst: nat)

  predicate Enabled(net: Net, e: Event, maxBurst: nat) {
    match e
    case Copy(_, _, burst) => burst <= maxBurst
    case Notice(side, _) => net.At(side).notices > 0
    case Deliver(side, index, _, burst) => index < |net.At(side).inbox| && burst <= maxBurst
  }

  function Step(codec: Codec, net: Net, e: Event, maxBurst: nat): Net
    requires Enabled(net, e, maxBurst)
  {
    var side := e.side;
    var n := net.At(side);
    match e
    case Copy(_, clip, burst) =>
      net.With(side, n.(clip := clip, notices := n.notices + burst, copies := n.copies + {clip}))
    case Notice(_, readable) =>
      var out := Outgoing(side, n.clip, false);
      var handled := net.With(side, n.(notices := n.notices - 1));
      if readable && out != [] then
        var msg := CreateMultiClipboards(codec, out);
        var p := net.At(side.Peer());
        handled.With(side.Peer(), p.(inbox := p.inbox + [msg])).(sent := net.sent + [Sent(side, msg)])
      else handled
    case Deliver(_, index, writable, burst) =>
      var msg := n.inbox[index];
      var changes := writable && FromMultiClipboards(codec, msg) != [];
      net.With(side, n.(
        inbox := n.inbox[..index] + n.inbox[index + 1..],
        clip := if changes then Updated(codec, side, n.clip, msg) else n.clip,
        notices := if changes then n.notices + burst else n.notices))
  }

  /** Each clipboard starts with what its user had copied; nothing is under way. */
  ghost predicate Initial(net: Net) {
    net.sent == [] && forall s: Side :: net.At(s).inbox == [] && net.At(s).clip in net.At(s).copies
  }

  ghost function Run(codec: Codec, net: Net, es: seq<Event>, maxBurst: nat): Option<Net>
    decreases |es|
  {
    if es == [] then Some(net)
    else if Enabled(net, es[0], maxBurst) then Run(codec, Step(codec, net, es[0], maxBurst), es[1..], maxBurst)
    else None
  }

  // --- nothing echoes ---

  /** A message of what some user copied at the sending machine. */
  ghost predicate Genuine(codec: Codec, net: Net, s: Sent) {
    exists clip <- net.At(s.from).copies :: Carries(codec, s, clip)
  }

  ghost predicate Carries(codec: Codec, s: Sent, clip: seq<Item>) {
    s.msg == CreateMultiClipboards(codec, Picked(clip)) && Picked(clip) != [] && !HoldsTag(clip)
  }

  ghost predicate Owned(net: Net, s: Side) {
    net.At(s).clip in net.At(s).copies || Tagged(s, net.At(s).clip)
  }

  ghost predicate Inv(codec: Codec, net: Net) {
    && Owned(net, Host) && Owned(net, Client)
    && forall s <- net.sent :: Genuine(codec, net, s)
  }

  lemma {:induction false} StepInv(codec: Codec, net: Net, e: Event, maxBurst: nat)
    requires Inv(codec, net) && Enabled(net, e, maxBurst)
    ensures Inv(codec, Step(codec, net, e, maxBurst))
  {
    var net' := Step(codec, net, e, maxBurst);
    var n := net.At(e.side);
    if e.Deliver? && FromMultiClipboards(codec, n.inbox[e.index]) != [] {
      UpdatedIsTagged(codec, e.side, n.clip, n.inbox[e.index], e.side);
    }
    StepSends(codec, net, e, maxBurst);
    forall s | s in net'.sent ensures Genuine(codec, net', s) {
      if s in net.sent {
        GenuineKept(codec, net, net', s);
      } else {
        assert Carries(codec, s, n.clip) && n.clip in net'.At(s.from).copies;
      }
    }
  }

  /** A message leaves only an untagged clipboard, and it holds that clipboard's content. */
  lemma {:induction false} StepSends(codec: Codec, net: Net, e: Event, maxBurst: nat)
    requires Inv(codec, net) && Enabled(net, e, maxBurst)
    ensures var net' := Step(codec, net, e, maxBurst);
            && (forall t: Side :: net.At(t).copies <= net'.At(t).copies)
            && (forall s <- net'.sent :: s in net.sent
                  || (s.from == e.side && Carries(codec, s, net.At(e.side).clip)
                      && net.At(e.side).clip in net.At(e.side).copies))
  {
    var n := net.At(e.side);
    OutgoingExactly(e.side, n.clip, false);
    TaggedMeans(e.side, n.clip);
  }

  lemma {:induction false} GenuineKept(codec: Codec, net: Net, net': Net, s: Sent)
    requires Genuine(codec, net, s)
    requires forall t: Side :: net.At(t).copies <= net'.At(t).copies
    ensures Genuine(codec, net', s)
  {
  }

  /** No echo: in every run, whatever was sent, a user had copied at the sending machine. */
  lemma {:induction false} NoEcho(codec: Codec, net: Net, es: seq<Event>, maxBurst: nat)
    requires Initial(net) && Run(codec, net, es, maxBurst).Some?
    ensures var end := Run(codec, net, es, maxBurst).value;
            forall s <- end.sent :: Genuine(codec, end, s)
  {
    RunInv(codec, net, es, maxBurst);
  }

  lemma {:induction false} RunInv(codec: Codec, net: Net, es: seq<Event>, maxBurst: nat)
    requires Inv(codec, net) && Run(codec, net, es, maxBurst).Some?
    ensures Inv(codec, Run(codec, net, es, maxBurst).value)
    decreases |es|
  {
    if es != [] {
      StepInv(codec, net, es[0], maxBurst);
      RunInv(codec, Step(codec, net, es[0], maxBurst), es[1..], maxBurst);
    }
  }

  // --- traffic stops ---

  /** A notification on sendable content can cause a message, a message a burst of
      notifications on tagged content, and those cause nothing more. */
  function NodeWeight(side: Side, n: Node, maxBurst: nat): nat {
    n.notices * (if Outgoing(side, n.clip, false) != [] then maxBurst + 2 else 1) + |n.inbox| * (maxBurst + 1)
  }

  function Weight(net: Net, maxBurst: nat): nat {
    NodeWeight(Host, net.host, maxBurst) + NodeWeight(Client, net.client, maxBurst)
  }

  lemma {:induction false} NoticeLighter(codec: Codec, net: Net, e: Event, maxBurst: nat)
    requires e.Notice? && Enabled(net, e, maxBurst)
    ensures Weight(Step(codec, net, e, maxBurst), maxBurst) < Weight(net, maxBurst)
  {
    var n, p := net.At(e.side), net.At(e.side.Peer());
    var after := Step(codec, net, e, maxBurst);
    OneNoticeLess(e.side, n, n.(notices := n.notices - 1), maxBurst);
    OneMessageMore(e.side.Peer(), p, after.At(e.side.Peer()), maxBurst);
  }

  lemma {:induction false} OneNoticeLess(side: Side, n: Node, n': Node, maxBurst: nat)
    requires n.notices > 0 && n' == n.(notices := n.notices - 1)
    ensures NodeWeight(side, n, maxBurst) - NodeWeight(side, n', maxBurst)
         == if Outgoing(side, n.clip, false) != [] then maxBurst + 2 else 1
  {
  }

  lemma {:induction false} OneMessageMore(side: Side, p: Node, p': Node, maxBurst: nat)
    requires p'.notices == p.notices && p'.clip == p.clip && |p.inbox| <= |p'.inbox| <= |p.inbox| + 1
    ensures NodeWeight(side, p', maxBurst) <= NodeWeight(side, p, maxBurst) + maxBurst + 1
    ensures |p'.inbox| == |p.inbox| ==> NodeWeight(side, p', maxBurst) == NodeWeight(side, p, maxBurst)
  {
  }

  lemma {:induction false} DeliverLighter(codec: Codec, net: Net, e: Event, maxBurst: nat)
    requires e.Deliver? && Enabled(net, e, maxBurst)
    ensures Weight(Step(codec, net, e, maxBurst), maxBurst) < Weight(net, maxBurst)
  {
    var n := net.At(e.side);
    var n' := Step(codec, net, e, maxBurst).At(e.side);
    if e.writable && FromMultiClipboards(codec, n.inbox[e.index]) != [] {
      UpdatedIsTagged(codec, e.side, n.clip, n.inbox[e.index], e.side);
    }
    NodeLighter(e.side, n, n', maxBurst);
  }

  lemma {:induction false} NodeLighter(side: Side, n: Node, n': Node, maxBurst: nat)
    requires |n'.inbox| == |n.inbox| - 1
    requires (n'.clip == n.clip && n'.notices == n.notices)
          || (Outgoing(side, n'.clip, false) == [] && n'.notices <= n.notices + maxBurst)
    ensures NodeWeight(side, n', maxBurst) < NodeWeight(side, n, maxBurst)
  {
    assert |n'.inbox| * (maxBurst + 1) == |n.inbox| * (maxBurst + 1) - (maxBurst + 1);
    assert n.notices <= n.notices * (maxBurst + 2);
  }

  /** Without further copies every event makes the weighted count smaller, so at most that
      many events can follow: the traffic stops. */
  lemma {:induction false} TrafficStops(codec: Codec, net: Net, es: seq<Event>, maxBurst: nat)
    requires Run(codec, net, es, maxBurst).Some?
    requires forall e <- es :: !e.Copy?
    ensures |es| + Weight(Run(codec, net, es, maxBurst).value, maxBurst) <= Weight(net, maxBurst)
    decreases |es|
  {
    if es != [] {
      var e := es[0];
      assert e in es;
      if e.Notice? {
        NoticeLighter(codec, net, e, maxBurst);
      } else {
        DeliverLighter(codec, net, e, maxBurst);
      }
      TrafficStops(codec, Step(codec, net, e, maxBurst), es[1..], maxBurst);
    }
  }

  /** A readable notification sends what its clipboard shares, unless that is tagged or
      nothing. */
  lemma {:induction false} NoticeSends(codec: Codec, net: Net, side: Side, readable: bool, maxBurst: nat)
    requires Enabled(net, Notice(side, readable), maxBurst)
    ensures var clip := net.At(side).clip;
            var net' := Step(codec, net, Notice(side, readable), maxBurst);
            var sends := readable && !HoldsTag(clip) && Picked(clip) != [];
            && net'.sent == net.sent + (if sends then [Sent(side, CreateMultiClipboards(codec, Picked(clip)))] else [])
            && net'.At(side.Peer()).inbox
               == net.At(side.Peer()).inbox + (if sends then [CreateMultiClipboards(codec, Picked(clip))] else [])
  {
    OutgoingExactly(side, net.At(side).clip, false);
  }

  /** A delivery takes its message from the inbox and, if it can be written and holds anything,
      puts it on the clipboard with the receiver's tag. */
  lemma {:induction false} DeliveryWrites(codec: Codec, net: Net, side: Side, index: nat, writable: bool, burst: nat, maxBurst: nat)
    requires Enabled(net, Deliver(side, index, writable, burst), maxBurst)
    ensures var n, n' := net.At(side), Step(codec, net, Deliver(side, index, writable, burst), maxBurst).At(side);
            var items := FromMultiClipboards(codec, n.inbox[index]);
            && n'.inbox == n.inbox[..index] + n.inbox[index + 1..] && n'.copies == n.copies
            && if writable && items != [] then
                 && n'.clip == items + [Special("dyn.com.cloudsend.owner", if side.Host? then [1] else [2])]
                 && n'.notices == n.notices + burst
               else n'.clip == n.clip && n'.notices == n.notices
  {
  }

  lemma {:induction false} ArrivalsAll(codec: Codec, items: seq<Item>)
    requires forall x <- items :: !x.Other?
    ensures |Arrivals(codec, items)| == |items|
    ensures forall k :: 0 <= k < |items| ==> Arrivals(codec, items)[k] == Arrival(codec, items[k])
  {
    if items != [] {
      ArrivalsAll(codec, items[1..]);
      assert items[0] in items;
    }
  }

  /** What the delivery of a copied clipboard leaves on the receiving one: the arrivals of its
      shared items over a lossless codec, in order, and the receiver's tag; a clipboard with
      nothing to share is not sent, and a message nothing can be read from changes nothing. */
  lemma {:induction false} DeliveredContent(codec: Codec, clip: seq<Item>, side: Side, before: seq<Item>)
    requires codec.Lossless() && !HoldsTag(clip)
    ensures var ps := Positions(clip);
            var after := Updated(codec, side, before, CreateMultiClipboards(codec, Outgoing(side.Peer(), clip, false)));
            if ps == [] then after == before
            else
              && |after| == |ps| + 1
              && (forall k :: 0 <= k < |ps| ==> after[k] == Arrival(codec, clip[ps[k]]))
              && after[|ps|] == Special("dyn.com.cloudsend.owner", if side.Host? then [1] else [2])
  {
    var sent := Picked(clip);
    OutgoingExactly(side.Peer(), clip, false);
    ListRoundTrip(codec, sent);
    ArrivalsAll(codec, sent);
  }
}

/**
 * The popup message queue of the GUI. Game code queues a message as one string holding the
 * type id, the title and the text separated by NUL characters; the drawing code takes the
 * oldest entry when no popup is open, splits it at every NUL and picks the popup type, the
 * window name and the message lines out of the parts.
 */
module Popup {
  import opened Wrappers

  datatype MsgType = Info | Warn | Error

  const NUL: char := '\0'
  const POPUP_ID_SUFFIX: string := "##RegularPopup"

  /** The type id that opens an encoded entry. */
  function TypeId(t: MsgType): string
  {
    match t
    case Info => "tINFO"
    case Warn => "tWARN"
    case Error => "tERROR"
  }

  /** The title QueueMsgInfo, QueueMsgWarn and QueueMsgError give their popups. */
  function Title(t: MsgType): string
  {
    match t
    case Info => "INFO"
    case Warn => "WARNING"
    case Error => "ERROR"
  }

  /** The character c does not occur in s. */
  predicate Lacks(s: string, c: char)
  {
    forall k :: 0 <= k < |s| ==> s[k] != c
  }

  predicate NoNul(s: string)
  {
    Lacks(s, NUL)
  }

  /** The queue entry of a message: type id, NUL, title, NUL, message. */
  function Encode(t: MsgType, msg: string): (e: string)
    ensures |e| == |TypeId(t)| + |Title(t)| + |msg| + 2
  {
    TypeId(t) + [NUL] + Title(t) + [NUL] + msg
  }

  /** QueueMsgInfo / QueueMsgWarn / QueueMsgError: append the encoded entry. */
  function Queue(q: seq<string>, t: MsgType, msg: string): (r: seq<string>)
    ensures |r| == |q| + 1 && r[..|q|] == q && r[|q|] == Encode(t, msg)
  {
    q + [Encode(t, msg)]
  }

  /** The index of the first occurrence of c in s, if any. */
  function Find(s: string, c: char): (r: Option<nat>)
    ensures r.None? <==> Lacks(s, c)
    ensures r.Some? ==> r.value < |s| && s[r.value] == c && Lacks(s[..r.value], c)
  {
    if s == [] then None
    else if s[0] == c then Some(0)
    else match Find(s[1..], c)
      case None => LacksCons(s, c); None
      case Some(i) => LacksCons(s[..i + 1], c); assert s[..i + 1][1..] == s[1..][..i]; Some(i + 1)
  }

  lemma LacksCons(s: string, c: char)
    requires s != [] && s[0] != c
    ensures Lacks(s, c) <==> Lacks(s[1..], c)
  {
    if Lacks(s[1..], c) {
      forall k | 1 <= k < |s| ensures s[k] != c {
        assert s[k] == s[1..][k - 1];
      }
    }
  }

  /** The components of an entry: the text between NULs, empty ones kept. */
  function SplitNul(s: string): (parts: seq<string>)
    ensures |parts| >= 1
    decreases |s|
  {
    match Find(s, NUL)
    case None => [s]
    case Some(i) => [s[..i]] + SplitNul(s[i + 1..])
  }

  /** The parts joined with NUL separators. */
  function JoinNul(parts: seq<string>): string
    requires |parts| >= 1
  {
    if |parts| == 1 then parts[0] else parts[0] + [NUL] + JoinNul(parts[1..])
  }

  /** Splitting at NUL loses nothing: joining the parts gives the entry back, and no part holds a NUL. */
  lemma {:induction false} SplitJoin(s: string)
    ensures JoinNul(SplitNul(s)) == s
    ensures forall k :: 0 <= k < |SplitNul(s)| ==> NoNul(SplitNul(s)[k])
    decreases |s|
  {
    match Find(s, NUL)
    case None =>
    case Some(i) =>
      SplitJoin(s[i + 1..]);
      var parts := SplitNul(s);
      assert parts[1..] == SplitNul(s[i + 1..]);
      assert s == s[..i] + [NUL] + s[i + 1..];
  }

  /** Splitting the join of NUL-free parts gives the parts back. */
  lemma {:induction false} JoinSplit(parts: seq<string>)
    requires |parts| >= 1 && forall k :: 0 <= k < |parts| ==> NoNul(parts[k])
    ensures SplitNul(JoinNul(parts)) == parts
    decreases |parts|
  {
    if |parts| == 1 {
      assert Find(parts[0], NUL).None?;
    } else {
      var s := JoinNul(parts);
      var p := parts[0];
      var rest := JoinNul(parts[1..]);
      assert s == p + ([NUL] + rest);
      FindAfterPrefix(p, rest);
      assert s[..|p|] == p && s[|p| + 1..] == rest;
      JoinSplit(parts[1..]);
    }
  }

  /** The first NUL of p + NUL + rest is the one after p when p has none. */
  lemma FindAfterPrefix(p: string, rest: string)
    requires NoNul(p)
    ensures Find(p + ([NUL] + rest), NUL) == Some(|p|)
  {
    var s := p + ([NUL] + rest);
    assert s[|p|] == NUL;
    var r := Find(s, NUL);
    assert r.Some?;
    var j := r.value;
    assert forall k :: 0 <= k < |p| ==> s[k] == p[k];
    assert forall k :: 0 <= k < j ==> s[..j][k] == s[k];
  }

  /** What the popup shows for one queue entry. */
  datatype Shown = Shown(msgType: MsgType, windowName: string, message: string)

  /**
   * The decoding in Popup::Draw: the type is WARN or ERROR only for an entry of at least three
   * parts whose first part names it; the window name and the message come from the parts
   * present.
   */
  function Decode(entry: string): (r: Shown)
    ensures NoNul(entry) ==> r == Shown(Info, "INFO" + POPUP_ID_SUFFIX, entry)
    ensures NoNul(r.message)
  {
    var parts := SplitNul(entry);
    SplitJoin(entry);
    assert NoNul(entry) ==> Find(entry, NUL).None?;
    var msgType :=
      if |parts| >= 3 && parts[0] == TypeId(Warn) then Warn
      else if |parts| >= 3 && parts[0] == TypeId(Error) then Error
      else Info;
    var windowName :=
      if |parts| < 2 then "INFO" + POPUP_ID_SUFFIX
      else if |parts| == 2 then parts[0] + POPUP_ID_SUFFIX
      else parts[1] + POPUP_ID_SUFFIX;
    var message := if |parts| == 1 then parts[0] else if |parts| == 2 then parts[1] else parts[2];
    Shown(msgType, windowName, message)
  }

  lemma TypeIdsDiffer()
    ensures TypeId(Warn) != TypeId(Error) && TypeId(Info) != TypeId(Warn) && TypeId(Info) != TypeId(Error)
  {
    assert TypeId(Warn)[1] != TypeId(Error)[1];
    assert TypeId(Info)[1] != TypeId(Warn)[1];
    assert TypeId(Info)[1] != TypeId(Error)[1];
  }

  /** Decoding a queued message gives back its type, its title as the window name, and the message. */
  lemma DecodeEncode(t: MsgType, msg: string)
    requires NoNul(msg)
    ensures Decode(Encode(t, msg)) == Shown(t, Title(t) + POPUP_ID_SUFFIX, msg)
  {
    var parts := [TypeId(t), Title(t), msg];
    assert JoinNul(parts[2..]) == msg;
    assert JoinNul(parts[1..]) == Title(t) + [NUL] + msg;
    assert Encode(t, msg) == JoinNul(parts);
    assert NoNul(TypeId(t)) && NoNul(Title(t));
    JoinSplit(parts);
    TypeIdsDiffer();
  }

  /** Text after a NUL inside the message is lost: only the part before it is shown. */
  lemma EmbeddedNulTruncates(t: MsgType, head: string, tail: string)
    requires NoNul(head)
    ensures Decode(Encode(t, head + [NUL] + tail)).message == head
  {
    var parts := SplitNul(tail);
    SplitJoin(tail);
    var all := [TypeId(t), Title(t), head] + parts;
    EncodeAsJoin(t, head, tail, parts);
    PartsNoNul(t, head, parts);
    JoinSplit(all);
  }

  /** An entry whose message holds a NUL is the join of five or more parts. */
  lemma EncodeAsJoin(t: MsgType, head: string, tail: string, parts: seq<string>)
    requires parts == SplitNul(tail) && JoinNul(parts) == tail
    ensures JoinNul([TypeId(t), Title(t), head] + parts) == Encode(t, head + [NUL] + tail)
  {
    var all := [TypeId(t), Title(t), head] + parts;
    assert all[2..] == [head] + parts && all[2..][1..] == parts;
    assert all[1..] == [Title(t)] + all[2..] && all[1..][1..] == all[2..];
    assert JoinNul(all[2..]) == head + [NUL] + tail;
    assert JoinNul(all[1..]) == Title(t) + [NUL] + JoinNul(all[2..]);
  }

  lemma PartsNoNul(t: MsgType, head: string, parts: seq<string>)
    requires NoNul(head) && forall k :: 0 <= k < |parts| ==> NoNul(parts[k])
    ensures forall k :: 0 <= k < |[TypeId(t), Title(t), head] + parts| ==> NoNul(([TypeId(t), Title(t), head] + parts)[k])
  {
    var all := [TypeId(t), Title(t), head] + parts;
    assert NoNul(TypeId(t)) && NoNul(Title(t));
    forall k | 3 <= k < |all| ensures NoNul(all[k]) {
      assert all[k] == parts[k - 3];
    }
  }

  /** The lines std::getline extracts: split at '\n', with no empty line after a final '\n'. */
  function Lines(s: string): (lines: seq<string>)
    decreases |s|
  {
    if s == [] then []
    else match Find(s, '\n')
      case None => [s]
      case Some(i) => [s[..i]] + Lines(s[i + 1..])
  }

  function JoinLines(lines: seq<string>): string
  {
    if lines == [] then [] else if |lines| == 1 then lines[0] else lines[0] + "\n" + JoinLines(lines[1..])
  }

  /** Ends with a newline character. */
  predicate EndsInNewline(s: string)
  {
    s != [] && s[|s| - 1] == '\n'
  }

  /** No extracted line holds a '\n'. */
  lemma {:induction false} LinesHaveNoNewline(s: string)
    ensures forall k :: 0 <= k < |Lines(s)| ==> '\n' !in Lines(s)[k]
    decreases |s|
  {
    if s != [] {
      match Find(s, '\n')
      case None =>
      case Some(i) =>
        LinesHaveNoNewline(s[i + 1..]);
        assert Lines(s)[1..] == Lines(s[i + 1..]);
    }
  }

  /** Joining the lines gives the message back, without a final '\n' if it had one. */
  lemma {:induction false} LinesJoin(s: string)
    ensures EndsInNewline(s) ==> JoinLines(Lines(s)) + "\n" == s
    ensures !EndsInNewline(s) ==> JoinLines(Lines(s)) == s
    decreases |s|
  {
    var f := Find(s, '\n');
    if s != [] && f.Some? {
      var i := f.value;
      var rest := s[i + 1..];
      var head := s[..i];
      LinesUnfold(s, i);
      SplitAround(s, i);
      assert s[i] == '\n';
      if rest == [] {
        assert EndsInNewline(s) && Lines(rest) == [];
        JoinCons(head, []);
      } else {
        LinesJoin(rest);
        JoinCons(head, Lines(rest));
        assert s[|s| - 1] == rest[|rest| - 1];
      }
    }
  }

  /** The first line and the rest. */
  lemma LinesUnfold(s: string, i: nat)
    requires s != [] && Find(s, '\n') == Some(i)
    ensures Lines(s) == [s[..i]] + Lines(s[i + 1..])
  {
  }

  /** A string is the text before, the character at, and the text after any of its indices. */
  lemma SplitAround(s: string, i: nat)
    requires i < |s|
    ensures s == s[..i] + [s[i]] + s[i + 1..]
  {
  }

  lemma JoinCons(head: string, ls: seq<string>)
    ensures JoinLines([head] + ls) == if ls == [] then head else head + "\n" + JoinLines(ls)
  {
    assert ([head] + ls)[1..] == ls;
  }

  datatype Step = Step(queue: seq<string>, shown: Option<Shown>)

  /**
   * The queue side of Popup::Draw: when no popup is open and an entry is waiting, the oldest
   * one is taken off the queue and decoded; otherwise nothing is taken.
   */
  function NextPopup(queue: seq<string>, popupOpen: bool): (r: Step)
    ensures popupOpen || queue == [] ==> r == Step(queue, None)
    ensures !popupOpen && queue != [] ==> |r.queue| == |queue| - 1 && r.shown.Some?
  {
    if popupOpen || queue == [] then Step(queue, None)
    else Step(queue[1..], Some(Decode(queue[0])))
  }

  /**
   * First in, first out: a newly queued message waits behind the entries already queued,
   * which are taken in their order.
   */
  lemma QueueBehind(q: seq<string>, t: MsgType, msg: string)
    requires q != []
    ensures NextPopup(Queue(q, t, msg), false) == Step(Queue(q[1..], t, msg), Some(Decode(q[0])))
  {
    assert (q + [Encode(t, msg)])[1..] == q[1..] + [Encode(t, msg)];
  }

  /** A message queued on an empty queue is shown next, with its own type, title and text. */
  lemma QueueAlone(t: MsgType, msg: string)
    requires NoNul(msg)
    ensures NextPopup(Queue([], t, msg), false) == Step([], Some(Shown(t, Title(t) + POPUP_ID_SUFFIX, msg)))
  {
    DecodeEncode(t, msg);
  }
}

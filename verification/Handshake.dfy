/**
 The debugger's side of the handshake in autodafe/src/adbg/network.c: the fuzzer sends its
 version, the strings to monitor, and a start message; the strings go into a linked list.
 */
module Handshake {
  import opened Wrappers
  import opened Units

  const MAJOR_VERSION := 0
  const MINOR_VERSION := 1

  /** A message with its fields in host byte order. */
  datatype Message =
    | Version(major: int, minor: int)
    | Start
    | String(id: nat, text: seq<Byte>)
    | Unknown(opcode: nat)

  /** A monitored string: its identifier and its bytes. */
  type Entry = (nat, seq<Byte>)

  // ---------- the protocol ----------

  /** Messages that inet_decode_msg acknowledges; on the others the debugger exits. */
  predicate Decodable(m: Message) {
    match m
    case Version(major, minor) => major == MAJOR_VERSION && minor == MINOR_VERSION
    case Start => true
    // Reading a string of no bytes looks like a closed connection.
    case String(_, text) => text != []
    case Unknown(_) => false
  }

  lemma DecodableIff(m: Message)
    ensures Decodable(m) <==> m == Version(0, 1) || m == Start || (m.String? && m.text != [])
  {
  }

  predicate HasId(entries: seq<Entry>, id: nat) {
    exists i :: 0 <= i < |entries| && entries[i].0 == id
  }

  /** The first string received for each identifier, in order of arrival. */
  function FirstStrings(messages: seq<Message>): seq<Entry> {
    if messages == [] then []
    else Add(FirstStrings(messages[..|messages| - 1]), messages[|messages| - 1])
  }

  function Add(entries: seq<Entry>, m: Message): seq<Entry> {
    if m.String? && !HasId(entries, m.id) then entries + [(m.id, m.text)] else entries
  }

  /** The first n messages are a whole handshake: version first, start last and nowhere else. */
  ghost predicate IsHandshake(messages: seq<Message>, n: nat) {
    && 2 <= n <= |messages| && messages[0].Version? && messages[n - 1].Start?
    && (forall i | 0 <= i < n :: Decodable(messages[i]))
    && (forall i | 0 <= i < n - 1 :: !messages[i].Start?)
  }

  lemma {:induction false} IdsAreUnique(messages: seq<Message>)
    ensures forall i, j | 0 <= i < j < |FirstStrings(messages)| ::
      FirstStrings(messages)[i].0 != FirstStrings(messages)[j].0
  {
    if messages != [] {
      IdsAreUnique(messages[..|messages| - 1]);
    }
  }

  /** The entry of an identifier is the string of the first message with that identifier. */
  lemma {:induction false} EntryIsFirstMessage(messages: seq<Message>, id: nat, text: seq<Byte>)
    ensures (id, text) in FirstStrings(messages) <==>
      exists k :: 0 <= k < |messages| && messages[k] == String(id, text) && IsNewAt(messages, id, k)
  {
    if messages != [] {
      var n := |messages| - 1;
      var front, last := messages[..n], messages[n];
      EntryIsFirstMessage(front, id, text);
      IdsAreReceived(front, id);
      forall k | 0 <= k <= n ensures IsNewAt(front, id, k) <==> IsNewAt(messages, id, k) {
        assert forall i | 0 <= i < k :: front[i] == messages[i];
      }
      if last == String(id, text) && !HasId(FirstStrings(front), id) {
        assert IsNewAt(messages, id, n);
      }
      if k :| 0 <= k < |messages| && messages[k] == String(id, text) && IsNewAt(messages, id, k) {
        if k < n {
          assert front[k] == String(id, text) && IsNewAt(front, id, k);
        } else {
          assert IsNewAt(front, id, n);
        }
      }
      if (id, text) in FirstStrings(front) {
        var k :| 0 <= k < |front| && front[k] == String(id, text) && IsNewAt(front, id, k);
        assert messages[k] == String(id, text) && IsNewAt(messages, id, k);
      }
    }
  }

  /** No message before position k has the identifier. */
  ghost predicate IsNewAt(messages: seq<Message>, id: nat, k: nat)
    requires k <= |messages|
  {
    forall i | 0 <= i < k :: !(messages[i].String? && messages[i].id == id)
  }

  lemma {:induction false} IdsAreReceived(messages: seq<Message>, id: nat)
    ensures HasId(FirstStrings(messages), id) <==> !IsNewAt(messages, id, |messages|)
  {
    if messages != [] {
      var n := |messages| - 1;
      var front := messages[..n];
      IdsAreReceived(front, id);
      var entries := FirstStrings(front);
      assert forall i | 0 <= i < n :: front[i] == messages[i];
      if messages[n].String? && !HasId(entries, messages[n].id) {
        var added := entries + [(messages[n].id, messages[n].text)];
        assert added[|entries|].0 == messages[n].id;
        if HasId(entries, id) {
          var i :| 0 <= i < |entries| && entries[i].0 == id;
          assert added[i].0 == id;
        }
      }
    }
  }

  /** The message that message k is the first one of its identifier for. */
  ghost predicate IsFirstAt(messages: seq<Message>, k: nat, entry: Entry) {
    k < |messages| && messages[k] == String(entry.0, entry.1) && IsNewAt(messages, entry.0, k)
  }

  ghost predicate ArriveInOrder(messages: seq<Message>, a: Entry, b: Entry) {
    exists k: nat, l: nat :: k < l && IsFirstAt(messages, k, a) && IsFirstAt(messages, l, b)
  }

  /** Strings are listed in the order in which their first messages arrived. */
  lemma {:induction false} EntriesInOrder(messages: seq<Message>, i: nat, j: nat)
    requires i < j < |FirstStrings(messages)|
    ensures ArriveInOrder(messages, FirstStrings(messages)[i], FirstStrings(messages)[j])
  {
    var n := |messages| - 1;
    var front, entries := messages[..n], FirstStrings(messages);
    if j < |FirstStrings(front)| {
      EntriesInOrder(front, i, j);
      assert entries[i] == FirstStrings(front)[i] && entries[j] == FirstStrings(front)[j];
      var k: nat, l: nat :| k < l && IsFirstAt(front, k, entries[i]) && IsFirstAt(front, l, entries[j]);
      FirstAtLater(front, messages[n], k, entries[i]);
      FirstAtLater(front, messages[n], l, entries[j]);
      assert front + [messages[n]] == messages;
    } else {
      var entry := FirstStrings(front)[i];
      EntryIsFirstMessage(front, entry.0, entry.1);
      var k: nat :| 0 <= k < |front| && front[k] == String(entry.0, entry.1) && IsNewAt(front, entry.0, k);
      FirstAtLater(front, messages[n], k, entry);
      assert front + [messages[n]] == messages;
      IdsAreReceived(front, messages[n].id);
      assert forall m | 0 <= m < n :: front[m] == messages[m];
      assert IsFirstAt(messages, k, entries[i]) && IsFirstAt(messages, n, entries[j]);
    }
  }

  lemma FirstAtLater(messages: seq<Message>, m: Message, k: nat, entry: Entry)
    requires IsFirstAt(messages, k, entry)
    ensures IsFirstAt(messages + [m], k, entry)
  {
  }

  // ---------- the linked list ----------

  class StringNode {
    var next: StringNode?
    const id: nat
    const text: seq<Byte>

    constructor (id: nat, text: seq<Byte>)
      ensures next == null && this.id == id && this.text == text
    {
      this.next, this.id, this.text := null, id, text;
    }
  }

  ghost function Entries(nodes: seq<StringNode>): (r: seq<Entry>)
    ensures |r| == |nodes|
  {
    seq(|nodes|, i requires 0 <= i < |nodes| => (nodes[i].id, nodes[i].text))
  }

  class Debugger {
    var strings: StringNode?
    /** Acknowledgements written. */
    var acks: nat
    ghost var spine: seq<StringNode>

    ghost predicate Valid()
      reads `strings, `spine, spine
    {
      && strings == (if spine == [] then null else spine[0])
      && (forall i | 0 <= i < |spine| :: spine[i].next == if i + 1 < |spine| then spine[i + 1] else null)
      && (forall i, j | 0 <= i < j < |spine| :: spine[i] != spine[j])
    }

    ghost function Contents(): (r: seq<Entry>)
      reads `spine
      ensures |r| == |spine|
    {
      Entries(spine)
    }

    constructor ()
      ensures Valid() && spine == [] && acks == 0
    {
      strings, acks, spine := null, 0, [];
    }

    /** The search and the insertion of a string message. */
    method Monitor(id: nat, text: seq<Byte>)
      requires Valid()
      modifies `strings, `spine, spine
      ensures Valid() && old(spine) <= spine && fresh(spine[|old(spine)|..])
      ensures Contents() == Add(old(Contents()), String(id, text))
    {
      var s, prev: StringNode? := strings, null;
      ghost var i := 0;
      while s != null
        invariant Valid() && spine == old(spine)
        invariant i <= |spine| && s == if i < |spine| then spine[i] else null
        invariant prev == if i > 0 then spine[i - 1] else null
        invariant forall k | 0 <= k < i :: spine[k].id != id
        decreases |spine| - i
      {
        prev := s;
        if id == s.id {
          assert Contents()[i].0 == id;
          return;
        }
        s := s.next;
        i := i + 1;
      }
      assert !HasId(Contents(), id);
      s := new StringNode(id, text);
      if prev != null {
        prev.next := s;
      }
      if strings == null {
        strings := s;
      }
      ghost var before := Contents();
      spine := spine + [s];
      assert Contents() == before + [(id, text)];
    }

    /** inet_decode_msg; false stands for exit. */
    method Decode(m: Message) returns (running: bool)
      requires Valid()
      modifies this, spine
      ensures Valid() && running == Decodable(m) && old(spine) <= spine && fresh(spine[|old(spine)|..])
      ensures acks == old(acks) + if running then 1 else 0
      ensures Contents() == if running then Add(old(Contents()), m) else old(Contents())
    {
      match m {
        case Version(major, minor) =>
          if major != MAJOR_VERSION || minor != MINOR_VERSION {
            return false;
          }
        case Start =>
        case String(id, text) =>
          if text == [] {
            return false;
          }
          Monitor(id, text);
        case Unknown(_) =>
          return false;
      }
      acks := acks + 1;
      return true;
    }

    /**
     inet_connection on the messages the fuzzer sends before it closes the connection: the number
     of messages taken, or None for exit.
     */
    method Connection(messages: seq<Message>) returns (taken: Option<nat>)
      requires Valid() && spine == [] && acks == 0
      modifies this
      ensures Valid()
      ensures taken.Some? ==> IsHandshake(messages, taken.value)
      ensures taken.None? ==> forall n: nat :: !IsHandshake(messages, n)
      ensures taken.Some? ==> Contents() == FirstStrings(messages[..taken.value]) && acks == taken.value
    {
      if messages == [] || !messages[0].Version? {
        return None;
      }
      var running := Decode(messages[0]);
      if !running {
        return None;
      }
      assert messages[..1][..0] == [] && FirstStrings(messages[..0]) == [];
      var n := 1;
      while true
        invariant Valid() && fresh(spine) && 1 <= n <= |messages| && acks == n
        invariant Contents() == FirstStrings(messages[..n])
        invariant forall i | 0 <= i < n :: Decodable(messages[i]) && !messages[i].Start?
        decreases |messages| - n
      {
        if n == |messages| {
          return None;
        }
        ghost var before := spine;
        running := Decode(messages[n]);
        assert spine == before + spine[|before|..];
        if !running {
          return None;
        }
        assert messages[..n + 1][..n] == messages[..n];
        n := n + 1;
        if messages[n - 1].Start? {
          break;
        }
      }
      return Some(n);
    }
  }
}

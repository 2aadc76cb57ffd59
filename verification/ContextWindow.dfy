/**
 * Compression of a provider transcript. The summary text and the keep ratio
 * are parameters; everything else follows the transcript itself.
 */
module ContextWindow {
  import opened Options

  datatype Role = System | User | Assistant | Tool | OtherRole(name: string)

  datatype Call = Call(id: string, name: string, arguments: string)

  datatype Message = Message(role: Role, content: string, toolCalls: Option<seq<Call>>, toolCallId: Option<string>)

  /** The summary of nothing is the empty string; the text is otherwise free. */
  type Summarizer = f: seq<Message> -> string | f([]) == "" witness (ms: seq<Message>) => ""

  datatype Settings = Settings(preserveRecent: nat, compressionRatio: real, summarize: Summarizer)

  // ----- tool-call groups -----

  predicate Carries(m: Message, id: string) {
    m.toolCalls.Some? && exists i :: 0 <= i < |m.toolCalls.value| && m.toolCalls.value[i].id == id
  }

  /** The call a tool message answers; a missing or empty id answers none. */
  function AnsweredId(m: Message): Option<string> {
    if m.toolCallId.Some? && m.toolCallId.value != "" then m.toolCallId else None
  }

  /** The last message before `boundary` that carries the call. */
  function LastCaller(messages: seq<Message>, boundary: nat, id: string): (r: Option<nat>)
    requires boundary <= |messages|
    ensures r.Some? ==> r.value < boundary && Carries(messages[r.value], id)
    ensures forall j :: (if r.Some? then r.value + 1 else 0) <= j < boundary ==> !Carries(messages[j], id)
  {
    if boundary == 0 then None
    else if Carries(messages[boundary - 1], id) then Some(boundary - 1)
    else LastCaller(messages, boundary - 1, id)
  }

  /** Moves a cut back to the message that made the call the cut would separate. */
  function AdjustBoundary(messages: seq<Message>, boundary: nat): (r: nat)
    ensures r <= boundary
  {
    if boundary == 0 || boundary >= |messages| || messages[boundary].role != Tool then boundary
    else
      var id := AnsweredId(messages[boundary]);
      if id.None? then boundary
      else
        var caller := LastCaller(messages, boundary, id.value);
        if caller.Some? then caller.value else boundary
  }

  /** `j` makes the call that message `i` answers, and only tool messages lie between them. */
  ghost predicate Answers(messages: seq<Message>, i: nat, j: nat)
    requires j < i < |messages|
  {
    && AnsweredId(messages[i]).Some? && messages[j].role == Assistant
    && Carries(messages[j], AnsweredId(messages[i]).value)
    && forall k :: j < k < i ==> messages[k].role == Tool
  }

  /** Tool messages sit contiguously after their own assistant; only assistants carry calls. */
  ghost predicate WellGrouped(messages: seq<Message>) {
    && (forall i :: 0 <= i < |messages| && messages[i].role == Tool ==> exists j :: 0 <= j < i && Answers(messages, i, j))
    && (forall i :: 0 <= i < |messages| && messages[i].role != Assistant ==> messages[i].toolCalls.None?)
  }

  /** A cut that splits no group: it is at the end or before a non-tool message. */
  predicate GroupBoundary(messages: seq<Message>, k: nat) {
    k >= |messages| || messages[k].role != Tool
  }

  /** In a well-grouped transcript the adjusted cut is a group boundary. */
  lemma AdjustedIsBoundary(messages: seq<Message>, boundary: nat)
    requires WellGrouped(messages)
    ensures GroupBoundary(messages, AdjustBoundary(messages, boundary))
    ensures boundary > 0 && boundary < |messages| && AdjustBoundary(messages, boundary) != boundary ==>
      messages[AdjustBoundary(messages, boundary)].role == Assistant
  {
    if boundary < |messages| && messages[boundary].role == Tool {
      var j :| 0 <= j < boundary && Answers(messages, boundary, j);
      var id := AnsweredId(messages[boundary]).value;
      var caller := LastCaller(messages, boundary, id);
      assert caller.Some?;
      assert caller.value >= j;
      assert messages[caller.value].toolCalls.Some?;
    }
  }

  // ----- orphan repair -----

  /** Some earlier assistant made the call that message `i` answers. */
  ghost predicate Answered(messages: seq<Message>, i: nat)
    requires i < |messages|
  {
    && AnsweredId(messages[i]).Some?
    && exists j :: 0 <= j < i && messages[j].role == Assistant && Carries(messages[j], AnsweredId(messages[i]).value)
  }

  ghost predicate NoOrphans(messages: seq<Message>) {
    forall i :: 0 <= i < |messages| && messages[i].role == Tool ==> Answered(messages, i)
  }

  function AsUser(m: Message): Message {
    Message(User, m.content, None, None)
  }

  function CallIds(calls: seq<Call>): seq<string> {
    seq(|calls|, i requires 0 <= i < |calls| => calls[i].id)
  }

  /** The call ids that a message makes known to those after it. */
  function IdsFrom(m: Message): seq<string> {
    if m.role == Assistant && m.toolCalls.Some? then CallIds(m.toolCalls.value) else []
  }

  function KnownIds(messages: seq<Message>): seq<string> {
    if messages == [] then []
    else KnownIds(messages[..|messages| - 1]) + IdsFrom(messages[|messages| - 1])
  }

  predicate IsOrphan(known: seq<string>, m: Message) {
    m.role == Tool && (AnsweredId(m).None? || AnsweredId(m).value !in known)
  }

  /** The transcript with every orphaned tool message turned into a user message. */
  function Repaired(messages: seq<Message>): seq<Message> {
    if messages == [] then []
    else
      var init, last := messages[..|messages| - 1], messages[|messages| - 1];
      Repaired(init) + [if IsOrphan(KnownIds(init), last) then AsUser(last) else last]
  }

  /** The repair pass, one message at a time. */
  method RemoveOrphanedToolMessages(messages: seq<Message>) returns (result: seq<Message>)
    ensures result == Repaired(messages)
  {
    hide KnownIds, Repaired, CallIds, AsUser;
    var known: seq<string> := [];
    result := [];
    NothingRepaired();
    assert messages[..0] == [];
    for i := 0 to |messages|
      invariant known == KnownIds(messages[..i])
      invariant result == Repaired(messages[..i])
    {
      var msg := messages[i];
      assert messages[..i + 1] == messages[..i] + [msg];
      RepairStep(messages[..i], msg);
      if msg.role == Assistant {
        if msg.toolCalls.Some? {
          known := LearnIds(known, msg.toolCalls.value);
        }
        result := result + [msg];
      } else if msg.role == Tool {
        var orphaned := AnsweredId(msg).None? || AnsweredId(msg).value !in known;
        result := result + [if orphaned then AsUser(msg) else msg];
      } else {
        result := result + [msg];
      }
    }
    assert messages[..|messages|] == messages;
  }

  method LearnIds(before: seq<string>, calls: seq<Call>) returns (known: seq<string>)
    ensures known == before + CallIds(calls)
  {
    known := before;
    for k := 0 to |calls|
      invariant known == before + CallIds(calls)[..k]
    {
      known := known + [calls[k].id];
    }
    assert CallIds(calls)[..|calls|] == CallIds(calls);
  }

  lemma NothingRepaired()
    ensures Repaired([]) == [] && KnownIds([]) == []
  {
  }

  lemma RepairStep(init: seq<Message>, last: Message)
    ensures KnownIds(init + [last])
            == if last.role == Assistant && last.toolCalls.Some? then KnownIds(init) + CallIds(last.toolCalls.value)
               else KnownIds(init)
    ensures Repaired(init + [last])
            == Repaired(init) + [if IsOrphan(KnownIds(init), last) then AsUser(last) else last]
  {
    hide CallIds, AsUser;
    assert (init + [last])[..|init|] == init;
  }

  lemma {:induction false} KnownIdsMeaning(messages: seq<Message>, id: string)
    ensures id in KnownIds(messages)
            <==> exists j :: 0 <= j < |messages| && messages[j].role == Assistant && Carries(messages[j], id)
  {
    if messages != [] {
      var init, last := messages[..|messages| - 1], messages[|messages| - 1];
      KnownIdsMeaning(init, id);
      assert id in IdsFrom(last) <==> last.role == Assistant && Carries(last, id) by {
        if last.role == Assistant && Carries(last, id) {
          var i :| 0 <= i < |last.toolCalls.value| && last.toolCalls.value[i].id == id;
          assert CallIds(last.toolCalls.value)[i] == id;
        }
      }
      if j :| 0 <= j < |messages| && messages[j].role == Assistant && Carries(messages[j], id) {
        assert j < |init| ==> init[j] == messages[j];
      }
      if id in KnownIds(init) {
        var j :| 0 <= j < |init| && init[j].role == Assistant && Carries(init[j], id);
        assert messages[j] == init[j];
      }
    }
  }

  lemma OrphanMeansUnanswered(init: seq<Message>, last: Message)
    ensures IsOrphan(KnownIds(init), last) <==> last.role == Tool && !Answered(init + [last], |init|)
  {
    hide Carries, KnownIds;
    var messages := init + [last];
    assert messages[|init|] == last;
    assert forall j :: 0 <= j < |init| ==> messages[j] == init[j];
    if AnsweredId(last).Some? {
      KnownIdsMeaning(init, AnsweredId(last).value);
    }
  }

  lemma {:induction false} RepairedAt(messages: seq<Message>)
    ensures |Repaired(messages)| == |messages|
    ensures forall i :: 0 <= i < |messages| ==>
      Repaired(messages)[i]
      == if messages[i].role == Tool && !Answered(messages, i) then AsUser(messages[i]) else messages[i]
  {
    if messages != [] {
      hide Answered, Repaired, AsUser;
      var init, last := messages[..|messages| - 1], messages[|messages| - 1];
      RepairedAt(init);
      assert messages == init + [last];
      RepairedLast(init, last);
      forall i | 0 <= i < |init|
        ensures messages[i] == init[i] && (Answered(init, i) <==> Answered(messages, i))
      {
        AnsweredInPrefix(messages, |init|, i);
      }
    }
  }

  /** The repair of the last message, given the ones before it. */
  lemma RepairedLast(init: seq<Message>, last: Message)
    ensures Repaired(init + [last])
            == Repaired(init) + [if last.role == Tool && !Answered(init + [last], |init|) then AsUser(last) else last]
  {
    hide Answered, IsOrphan, KnownIds, AsUser;
    OrphanMeansUnanswered(init, last);
    assert (init + [last])[..|init|] == init;
  }

  lemma AnsweredInPrefix(messages: seq<Message>, n: nat, i: nat)
    requires i < n <= |messages|
    ensures Answered(messages[..n], i) <==> Answered(messages, i)
  {
    assert forall j :: 0 <= j < n ==> messages[..n][j] == messages[j];
  }

  /**
   * For every transcript: the repaired one has no orphans, keeps every content
   * in place, and is unchanged exactly when there was nothing to repair.
   */
  lemma RepairIsSafe(messages: seq<Message>)
    ensures NoOrphans(Repaired(messages))
    ensures |Repaired(messages)| == |messages|
    ensures forall i :: 0 <= i < |messages| ==>
      || Repaired(messages)[i] == messages[i]
      || (messages[i].role == Tool && Repaired(messages)[i] == Message(User, messages[i].content, None, None))
    ensures Repaired(messages) == messages <==> NoOrphans(messages)
  {
    RepairedAt(messages);
    var fixed := Repaired(messages);
    forall i | 0 <= i < |fixed| && fixed[i].role == Tool
      ensures Answered(fixed, i)
    {
      var j :| 0 <= j < i && messages[j].role == Assistant && Carries(messages[j], AnsweredId(messages[i]).value);
      assert fixed[j] == messages[j];
    }
    if NoOrphans(messages) {
      assert forall i :: 0 <= i < |messages| ==> fixed[i] == messages[i];
    }
  }

  // ----- compression -----

  /** Truncation of `n * ratio` to an index; a negative product counts as 0. */
  function KeepCount(n: nat, ratio: real): (r: nat)
    ensures r <= n
  {
    var product := n as real * ratio;
    if product <= 0.0 then 0 else if product.Floor > n then n else product.Floor
  }

  function SummaryMessage(summary: string): Message {
    Message(User, "[History Summary] " + summary, None, None)
  }

  /** Where the middle part is cut into what is summarised and what is kept. */
  function Split(middle: seq<Message>, ratio: real): (r: nat)
    ensures r <= |middle|
  {
    var keep := KeepCount(|middle|, ratio);
    if keep > 0 && keep < |middle| then AdjustBoundary(middle, |middle| - keep)
    else if keep >= |middle| then 0
    else |middle|
  }

  datatype Compressed = Compressed(messages: seq<Message>, summary: string)

  predicate HasSystem(messages: seq<Message>) {
    messages != [] && messages[0].role == System
  }

  function MiddleStart(messages: seq<Message>): nat {
    if HasSystem(messages) then 1 else 0
  }

  predicate IsShort(s: Settings, messages: seq<Message>) {
    |messages| <= s.preserveRecent + 1
  }

  function RecentStart(s: Settings, messages: seq<Message>): (r: nat)
    ensures r <= |messages|
  {
    if |messages| <= s.preserveRecent then AdjustBoundary(messages, 0)
    else AdjustBoundary(messages, |messages| - s.preserveRecent)
  }

  /** None stands for the slice error when the recent part would start before the middle part. */
  function CompressMessages(s: Settings, messages: seq<Message>): Option<Compressed> {
    if IsShort(s, messages) then Some(Compressed(messages, ""))
    else
      var recentStart := RecentStart(s, messages);
      var middleStart := MiddleStart(messages);
      if recentStart < middleStart then None
      else
        var middle := messages[middleStart..recentStart];
        var split := Split(middle, s.compressionRatio);
        var summary := s.summarize(middle[..split]);
        var compressed := messages[..middleStart]
                          + (if summary != "" then [SummaryMessage(summary)] else [])
                          + middle[split..] + messages[recentStart..];
        Some(Compressed(Repaired(compressed), summary))
  }

  function CompressPreservingPrefix(s: Settings, messages: seq<Message>, immutablePrefix: nat): Option<Compressed> {
    var prefix := if immutablePrefix < |messages| then immutablePrefix else |messages|;
    if prefix == 0 then CompressMessages(s, messages)
    else
      var tail := CompressMessages(s, messages[prefix..]);
      if tail.None? then None
      else Some(Compressed(messages[..prefix] + tail.value.messages, tail.value.summary))
  }

  /**
   * `out` is the optional system message, the optional summary of the messages
   * left out, and the untouched suffix from `k` on.
   */
  ghost predicate CutAt(s: Settings, messages: seq<Message>, out: Compressed, k: nat) {
    && MiddleStart(messages) <= k <= |messages|
    && out.summary == s.summarize(messages[MiddleStart(messages)..k])
    && out.messages == messages[..MiddleStart(messages)]
                       + (if out.summary != "" then [SummaryMessage(out.summary)] else [])
                       + messages[k..]
  }

  lemma SuffixGrouped(messages: seq<Message>, k: nat)
    requires WellGrouped(messages) && k <= |messages| && GroupBoundary(messages, k)
    ensures WellGrouped(messages[k..])
  {
    var tail := messages[k..];
    forall i | 0 <= i < |tail| && tail[i].role == Tool
      ensures exists j :: 0 <= j < i && Answers(tail, i, j)
    {
      var j :| 0 <= j < k + i && Answers(messages, k + i, j);
      assert messages[k].role != Tool;
      assert j >= k;
      assert forall n :: j - k < n < i ==> tail[n] == messages[k + n];
      assert Answers(tail, i, j - k);
    }
  }

  lemma PrefixGrouped(messages: seq<Message>, k: nat)
    requires WellGrouped(messages) && k <= |messages|
    ensures WellGrouped(messages[..k])
  {
    var head := messages[..k];
    forall i | 0 <= i < |head| && head[i].role == Tool
      ensures exists j :: 0 <= j < i && Answers(head, i, j)
    {
      var j :| 0 <= j < i && Answers(messages, i, j);
      assert Answers(head, i, j);
    }
  }

  lemma GroupedHasNoOrphans(messages: seq<Message>)
    requires WellGrouped(messages)
    ensures NoOrphans(messages)
  {
    forall i | 0 <= i < |messages| && messages[i].role == Tool
      ensures Answered(messages, i)
    {
      var j :| 0 <= j < i && Answers(messages, i, j);
    }
  }

  /** Messages without tool role in front of an orphan-free list leave it orphan-free. */
  lemma PrependKeepsAnswers(front: seq<Message>, messages: seq<Message>)
    requires NoOrphans(messages) && forall i :: 0 <= i < |front| ==> front[i].role != Tool
    ensures NoOrphans(front + messages)
  {
    var all := front + messages;
    forall i | 0 <= i < |all| && all[i].role == Tool
      ensures Answered(all, i)
    {
      assert all[i] == messages[i - |front|];
      assert Answered(messages, i - |front|);
      var j :| 0 <= j < i - |front| && messages[j].role == Assistant
               && Carries(messages[j], AnsweredId(all[i]).value);
      assert all[|front| + j] == messages[j];
    }
  }

  /** The slice error: the boundary tool message answers a call carried by the leading system message alone. */
  lemma FailsExactlyWhen(s: Settings, messages: seq<Message>)
    ensures CompressMessages(s, messages).None?
            <==> && !IsShort(s, messages) && HasSystem(messages) && s.preserveRecent > 0
                 && var b := |messages| - s.preserveRecent;
                    messages[b].role == Tool && AnsweredId(messages[b]).Some?
                    && Carries(messages[0], AnsweredId(messages[b]).value)
                    && forall j :: 1 <= j < b ==> !Carries(messages[j], AnsweredId(messages[b]).value)
  {
    if !IsShort(s, messages) && HasSystem(messages) && s.preserveRecent > 0 {
      var b := |messages| - s.preserveRecent;
      if messages[b].role == Tool && AnsweredId(messages[b]).Some? {
        var caller := LastCaller(messages, b, AnsweredId(messages[b]).value);
      }
    }
  }

  /** A system message with a call, a question, and the answer to that call: the slice fails. */
  lemma SystemCallFails(s: Settings, id: string, question: string, answer: string)
    requires s.preserveRecent == 1 && id != ""
    ensures CompressMessages(s, [
              Message(System, "", Some([Call(id, "tool", "")]), None),
              Message(User, question, None, None),
              Message(Tool, answer, None, Some(id))]).None?
  {
    var system := Message(System, "", Some([Call(id, "tool", "")]), None);
    var messages := [system, Message(User, question, None, None), Message(Tool, answer, None, Some(id))];
    assert system.toolCalls.value[0].id == id;
    FailsExactlyWhen(s, messages);
  }

  /** Whatever the transcript, a compressed one has no orphaned tool message. */
  lemma CompressedHasNoOrphans(s: Settings, messages: seq<Message>)
    requires !IsShort(s, messages) && CompressMessages(s, messages).Some?
    ensures NoOrphans(CompressMessages(s, messages).value.messages)
  {
    hide Repaired, NoOrphans, Split;
    var recentStart, middleStart := RecentStart(s, messages), MiddleStart(messages);
    var middle := messages[middleStart..recentStart];
    var split := Split(middle, s.compressionRatio);
    var summary := s.summarize(middle[..split]);
    RepairIsSafe(messages[..middleStart]
                 + (if summary != "" then [SummaryMessage(summary)] else [])
                 + middle[split..] + messages[recentStart..]);
  }

  /** The index in the whole transcript from which a compression keeps everything. */
  function KeptFrom(s: Settings, messages: seq<Message>): nat {
    var recentStart, middleStart := RecentStart(s, messages), MiddleStart(messages);
    if recentStart < middleStart then middleStart
    else middleStart + Split(messages[middleStart..recentStart], s.compressionRatio)
  }

  lemma SplitIsBoundary(middle: seq<Message>, ratio: real)
    requires WellGrouped(middle)
    ensures GroupBoundary(middle, Split(middle, ratio))
  {
    hide WellGrouped, AdjustBoundary, KeepCount;
    AdjustedIsBoundary(middle, |middle| - KeepCount(|middle|, ratio));
    if middle != [] {
      FirstIsNoTool(middle);
    }
  }

  lemma FirstIsNoTool(messages: seq<Message>)
    requires WellGrouped(messages) && messages != []
    ensures messages[0].role != Tool && (messages[0].role == System ==> GroupBoundary(messages, 1))
  {
  }

  /** The recent part never reaches back into the system message. */
  lemma RecentAfterMiddleStart(s: Settings, messages: seq<Message>)
    requires WellGrouped(messages) && !IsShort(s, messages)
    ensures MiddleStart(messages) <= RecentStart(s, messages) <= |messages| - s.preserveRecent
    ensures GroupBoundary(messages, RecentStart(s, messages))
  {
    hide WellGrouped, GroupBoundary;
    AdjustedIsBoundary(messages, |messages| - s.preserveRecent);
  }

  lemma MiddleIsGrouped(messages: seq<Message>, recentStart: nat)
    requires WellGrouped(messages) && MiddleStart(messages) <= recentStart <= |messages|
    ensures WellGrouped(messages[MiddleStart(messages)..recentStart])
  {
    hide WellGrouped;
    var head := messages[..recentStart];
    PrefixGrouped(messages, recentStart);
    if HasSystem(messages) {
      FirstIsNoTool(messages);
      SuffixGrouped(head, 1);
      assert head[1..] == messages[1..recentStart];
    } else {
      assert head == messages[0..recentStart];
    }
  }

  lemma KeptFromIsBoundary(s: Settings, messages: seq<Message>)
    requires WellGrouped(messages) && !IsShort(s, messages)
    ensures MiddleStart(messages) <= RecentStart(s, messages) <= |messages| - s.preserveRecent
    ensures MiddleStart(messages) <= KeptFrom(s, messages) <= RecentStart(s, messages)
    ensures GroupBoundary(messages, KeptFrom(s, messages))
  {
    hide WellGrouped, Split, RecentStart, MiddleStart;
    RecentAfterMiddleStart(s, messages);
    var middle := messages[MiddleStart(messages)..RecentStart(s, messages)];
    MiddleIsGrouped(messages, RecentStart(s, messages));
    SplitIsBoundary(middle, s.compressionRatio);
  }

  /** The pieces of a compression before repair, put together around the cut `k`. */
  lemma PiecesMeet(messages: seq<Message>, front: seq<Message>, start: nat, k: nat, recentStart: nat)
    requires start <= k <= recentStart <= |messages|
    ensures var middle := messages[start..recentStart];
            front + middle[k - start..] + messages[recentStart..] == front + messages[k..]
            && middle[..k - start] == messages[start..k]
  {
    var middle := messages[start..recentStart];
    assert middle[k - start..] + messages[recentStart..] == messages[k..];
    assert front + middle[k - start..] + messages[recentStart..]
           == front + (middle[k - start..] + messages[recentStart..]);
  }

  lemma KeptSuffixIsClean(messages: seq<Message>, front: seq<Message>, k: nat)
    requires WellGrouped(messages) && k <= |messages| && GroupBoundary(messages, k)
    requires forall i :: 0 <= i < |front| ==> front[i].role != Tool
    ensures Repaired(front + messages[k..]) == front + messages[k..]
    ensures NoOrphans(front + messages[k..])
  {
    hide WellGrouped, Repaired, NoOrphans, GroupBoundary;
    SuffixGrouped(messages, k);
    GroupedHasNoOrphans(messages[k..]);
    PrependKeepsAnswers(front, messages[k..]);
    RepairIsSafe(front + messages[k..]);
  }

  lemma ShortIsKept(s: Settings, messages: seq<Message>)
    requires |messages| <= s.preserveRecent + 1
    ensures CompressMessages(s, messages) == Some(Compressed(messages, ""))
  {
  }

  /** The leading part of a compressed transcript. */
  function Front(messages: seq<Message>, summary: string): seq<Message> {
    messages[..MiddleStart(messages)] + (if summary != "" then [SummaryMessage(summary)] else [])
  }

  /** Whatever the transcript, a compression repairs the front and the suffix from one cut on. */
  lemma CompressionShape(s: Settings, messages: seq<Message>)
    requires !IsShort(s, messages) && CompressMessages(s, messages).Some?
    ensures var out, k := CompressMessages(s, messages).value, KeptFrom(s, messages);
            && MiddleStart(messages) <= k <= |messages|
            && out.summary == s.summarize(messages[MiddleStart(messages)..k])
            && out.messages == Repaired(Front(messages, out.summary) + messages[k..])
  {
    hide Split, Repaired, RecentStart, MiddleStart;
    var recentStart, start, k := RecentStart(s, messages), MiddleStart(messages), KeptFrom(s, messages);
    PiecesMeet(messages, Front(messages, s.summarize(messages[start..k])), start, k, recentStart);
  }

  lemma LongIsCut(s: Settings, messages: seq<Message>)
    requires WellGrouped(messages) && !IsShort(s, messages)
    ensures CompressMessages(s, messages).Some?
    ensures var out, k := CompressMessages(s, messages).value, KeptFrom(s, messages);
            k <= |messages| && CutAt(s, messages, out, k) && NoOrphans(out.messages) && |out.messages| <= |messages|
  {
    hide Split, WellGrouped, NoOrphans, RecentStart, Repaired, GroupBoundary, MiddleStart;
    KeptFromIsBoundary(s, messages);
    CompressionShape(s, messages);
    var start, k := MiddleStart(messages), KeptFrom(s, messages);
    var summary := s.summarize(messages[start..k]);
    FrontHasNoTool(messages, summary);
    KeptSuffixIsClean(messages, Front(messages, summary), k);
    assert summary != "" ==> messages[start..k] != [];
  }

  lemma FrontHasNoTool(messages: seq<Message>, summary: string)
    ensures forall i :: 0 <= i < |Front(messages, summary)| ==> Front(messages, summary)[i].role != Tool
  {
  }

  /**
   * For every well-grouped transcript, compression keeps the system message,
   * may insert one summary, and keeps an untouched suffix that starts at a
   * group boundary and holds the most recent messages. The repair pass changes
   * nothing and the result is never longer than the input.
   */
  lemma CompressionCutsAtBoundary(s: Settings, messages: seq<Message>)
    requires WellGrouped(messages)
    ensures CompressMessages(s, messages).Some?
    ensures var out := CompressMessages(s, messages).value;
            && |out.messages| <= |messages|
            && NoOrphans(out.messages)
            && (IsShort(s, messages) ==> out == Compressed(messages, ""))
            && (!IsShort(s, messages) ==>
                  && KeptFrom(s, messages) <= |messages| - s.preserveRecent
                  && GroupBoundary(messages, KeptFrom(s, messages))
                  && CutAt(s, messages, out, KeptFrom(s, messages)))
  {
    hide CompressMessages, KeptFrom, WellGrouped, NoOrphans, GroupBoundary;
    if IsShort(s, messages) {
      GroupedHasNoOrphans(messages);
      ShortIsKept(s, messages);
    } else {
      KeptFromIsBoundary(s, messages);
      LongIsCut(s, messages);
    }
  }

  /** For every transcript and every length, the immutable prefix comes back verbatim before the compressed tail. */
  lemma PrefixIsVerbatim(s: Settings, messages: seq<Message>, immutablePrefix: nat)
    ensures var n := if immutablePrefix < |messages| then immutablePrefix else |messages|;
            var tail, out := CompressMessages(s, messages[n..]), CompressPreservingPrefix(s, messages, immutablePrefix);
            && (out.Some? <==> tail.Some?)
            && (out.Some? ==> out.value == Compressed(messages[..n] + tail.value.messages, tail.value.summary)
                              && messages[..n] <= out.value.messages)
  {
    hide CompressMessages;
    if immutablePrefix == 0 || messages == [] {
      assert messages[0..] == messages && messages[..0] == [];
    }
  }

  /** A prefix that splits no group adds no orphan, and the result is no longer than the transcript. */
  lemma PrefixIsPreserved(s: Settings, messages: seq<Message>, immutablePrefix: nat)
    requires WellGrouped(messages) && GroupBoundary(messages, immutablePrefix)
    ensures var out := CompressPreservingPrefix(s, messages, immutablePrefix);
            out.Some? && |out.value.messages| <= |messages| && NoOrphans(out.value.messages)
  {
    var n := if immutablePrefix < |messages| then immutablePrefix else |messages|;
    hide CompressMessages, WellGrouped, NoOrphans;
    PrefixIsVerbatim(s, messages, immutablePrefix);
    PrefixGrouped(messages, n);
    SuffixGrouped(messages, n);
    CompressionCutsAtBoundary(s, messages[n..]);
    GroupedHasNoOrphans(messages[..n]);
    JoinNoOrphans(messages[..n], CompressMessages(s, messages[n..]).value.messages);
  }

  lemma JoinNoOrphans(x: seq<Message>, y: seq<Message>)
    requires NoOrphans(x) && NoOrphans(y)
    ensures NoOrphans(x + y)
  {
    var all := x + y;
    forall i | 0 <= i < |all| && all[i].role == Tool
      ensures Answered(all, i)
    {
      if i < |x| {
        assert Answered(x, i);
        assert all[..|x|] == x;
        AnsweredInPrefix(all, |x|, i);
      } else {
        assert all[i] == y[i - |x|];
        assert Answered(y, i - |x|);
        var j :| 0 <= j < i - |x| && y[j].role == Assistant && Carries(y[j], AnsweredId(all[i]).value);
        assert all[|x| + j] == y[j];
      }
    }
  }

  // ----- where exactly the cut falls -----

  /** `k` is the last group boundary at or before `limit`. */
  ghost predicate LastBoundary(messages: seq<Message>, k: nat, limit: int) {
    && k <= limit && GroupBoundary(messages, k)
    && forall i :: k < i <= limit ==> !GroupBoundary(messages, i)
  }

  lemma LastBoundaryUnique(messages: seq<Message>, j: nat, k: nat, limit: int)
    requires LastBoundary(messages, j, limit) && LastBoundary(messages, k, limit)
    ensures j == k
  {
  }

  lemma AdjustedIsLastBoundary(messages: seq<Message>, boundary: nat)
    requires WellGrouped(messages) && boundary <= |messages|
    ensures LastBoundary(messages, AdjustBoundary(messages, boundary), boundary)
  {
    AdjustedIsBoundary(messages, boundary);
    if boundary < |messages| && messages[boundary].role == Tool {
      var j :| 0 <= j < boundary && Answers(messages, boundary, j);
      var id := AnsweredId(messages[boundary]).value;
      var caller := LastCaller(messages, boundary, id);
      forall i | j < i < boundary
        ensures !Carries(messages[i], id)
      {
        assert messages[i].role == Tool;
      }
    }
  }

  /** What the keep ratio asks to keep of `n` messages; negative or larger values stand for none and all. */
  function Asked(n: nat, ratio: real): int {
    (n as real * ratio).Floor
  }

  /**
   * `k` is where the kept messages start, when those from `recent` on are the
   * recent ones and the middle starts at `start`.
   */
  ghost predicate KeepsMiddleFrom(messages: seq<Message>, ratio: real, start: nat, recent: nat, k: nat)
    requires start <= recent
  {
    var asked := Asked(recent - start, ratio);
    if asked <= 0 then k == recent
    else if asked >= recent - start then k == start
    else LastBoundary(messages, k, recent - asked)
  }

  lemma SplitKeepsMiddle(messages: seq<Message>, ratio: real, start: nat, recent: nat)
    requires WellGrouped(messages) && start <= recent <= |messages|
    requires GroupBoundary(messages, start) && GroupBoundary(messages, recent)
    requires WellGrouped(messages[start..recent])
    ensures KeepsMiddleFrom(messages, ratio, start, recent, start + Split(messages[start..recent], ratio))
  {
    hide WellGrouped, AdjustBoundary;
    var middle := messages[start..recent];
    var asked := Asked(|middle|, ratio);
    if 0 < asked < |middle| {
      assert KeepCount(|middle|, ratio) == asked;
      AdjustedIsLastBoundary(middle, |middle| - asked);
      var split := AdjustBoundary(middle, |middle| - asked);
      assert forall i :: 0 <= i < |middle| ==> middle[i] == messages[start + i];
      forall i | start + split < i <= recent - asked
        ensures !GroupBoundary(messages, i)
      {
        assert !GroupBoundary(middle, i - start);
      }
    }
  }

  /** What a compression leaves when the recent part starts at `recent` and the kept messages at `k`. */
  ghost predicate CutsThere(s: Settings, messages: seq<Message>, out: Compressed, recent: nat, k: nat)
    requires messages != []
  {
    var start := if messages[0].role == System then 1 else 0;
    && start <= k <= recent <= |messages|
    && LastBoundary(messages, recent, |messages| - s.preserveRecent)
    && KeepsMiddleFrom(messages, s.compressionRatio, start, recent, k)
    && out.summary == s.summarize(messages[start..k])
    && out.messages == messages[..start]
                       + (if out.summary != "" then [Message(User, "[History Summary] " + out.summary, None, None)] else [])
                       + messages[k..]
  }

  /**
   * Where a compression of a well-grouped transcript cuts: the recent part
   * starts at the last group boundary that leaves it the messages to preserve,
   * and of what lies before, the ratio is kept, again from a group boundary.
   */
  lemma CutFallsExactly(s: Settings, messages: seq<Message>)
    requires WellGrouped(messages) && |messages| > s.preserveRecent + 1
    ensures CompressMessages(s, messages).Some?
    ensures exists recent: nat, k: nat :: CutsThere(s, messages, CompressMessages(s, messages).value, recent, k)
  {
    hide WellGrouped, Split, AdjustBoundary, CompressMessages, LastBoundary, KeepsMiddleFrom, NoOrphans;
    LongIsCut(s, messages);
    KeptFromIsBoundary(s, messages);
    var start, recent, k := MiddleStart(messages), RecentStart(s, messages), KeptFrom(s, messages);
    AdjustedIsLastBoundary(messages, |messages| - s.preserveRecent);
    MiddleIsGrouped(messages, recent);
    FirstIsNoTool(messages);
    SplitKeepsMiddle(messages, s.compressionRatio, start, recent);
    assert CutsThere(s, messages, CompressMessages(s, messages).value, recent, k);
  }

  // ----- a prefix that ends inside a group -----

  /** From `k` on, only tool messages up to and including `p`: what is left of a group cut at `k`. */
  predicate ToolsSince(messages: seq<Message>, k: nat, p: nat)
    requires k <= p < |messages|
  {
    forall q :: k <= q <= p ==> messages[q].role == Tool
  }

  /** Behind a cut, a tool message has lost its call exactly when it is in the rest of the cut group. */
  lemma LostCalls(messages: seq<Message>, front: seq<Message>, k: nat, p: nat)
    requires WellGrouped(messages) && k <= p < |messages| && messages[p].role == Tool
    requires forall i :: 0 <= i < |front| ==> front[i].role != Assistant
    ensures Answered(front + messages[k..], |front| + p - k) <==> !ToolsSince(messages, k, p)
  {
    var all := front + messages[k..];
    assert forall q :: k <= q < |messages| ==> all[|front| + q - k] == messages[q];
    assert forall i :: 0 <= i < |front| ==> all[i] == front[i];
    var j :| 0 <= j < p && Answers(messages, p, j);
    if !ToolsSince(messages, k, p) {
      assert j >= k;
      assert all[|front| + j - k] == messages[j];
    } else {
      forall i | |front| <= i < |front| + p - k
        ensures all[i].role == Tool
      {
        assert all[i] == messages[k + i - |front|];
      }
    }
  }

  lemma FrontHasNoAssistant(messages: seq<Message>, summary: string)
    ensures forall i :: 0 <= i < |Front(messages, summary)| ==>
      Front(messages, summary)[i].role != Assistant && Front(messages, summary)[i].role != Tool
  {
  }

  /** Where the compressed tail starts in the transcript, when it is long enough to be compressed. */
  function TailFrom(s: Settings, messages: seq<Message>, n: nat): nat
    requires n <= |messages|
  {
    n + KeptFrom(s, messages[n..])
  }

  lemma TailIsCompressed(s: Settings, messages: seq<Message>, n: nat)
    requires WellGrouped(messages) && n <= |messages|
    ensures CompressMessages(s, messages[n..]).Some?
  {
    hide WellGrouped, GroupBoundary;
    if GroupBoundary(messages, n) {
      SuffixGrouped(messages, n);
      CompressionCutsAtBoundary(s, messages[n..]);
    } else {
      CutTailHasNoSystem(messages, n);
      FailsExactlyWhen(s, messages[n..]);
    }
  }

  lemma CutTailHasNoSystem(messages: seq<Message>, n: nat)
    requires n <= |messages| && !GroupBoundary(messages, n)
    ensures !HasSystem(messages[n..])
  {
  }

  /**
   * What a compression behind a prefix of any length keeps of the tail: every
   * message as it was, except that the rest of a group cut at the start of what
   * is kept comes back as user messages. So the tail is kept unchanged exactly
   * when what is kept starts at a group boundary.
   */
  lemma TailIsKeptExactlyWhen(s: Settings, messages: seq<Message>, n: nat)
    requires WellGrouped(messages) && n <= |messages| && !IsShort(s, messages[n..])
    ensures CompressMessages(s, messages[n..]).Some?
    ensures var out, k := CompressMessages(s, messages[n..]).value, TailFrom(s, messages, n);
            var front := Front(messages[n..], out.summary);
            && k <= |messages|
            && KeptBehind(messages, front, k, out.messages)
            && (out.messages == front + messages[k..] <==> GroupBoundary(messages, k))
  {
    hide WellGrouped, KeptFrom, CompressMessages, KeptBehind, MiddleStart, Repaired, IsShort, GroupBoundary;
    TailIsCompressed(s, messages, n);
    CompressionShape(s, messages[n..]);
    var out, k := CompressMessages(s, messages[n..]).value, TailFrom(s, messages, n);
    var front := Front(messages[n..], out.summary);
    hide Front;
    FrontHasNoAssistant(messages[n..], out.summary);
    assert messages[n..][k - n..] == messages[k..];
    RepairedBehind(messages, front, k);
    UnchangedExactlyWhen(messages, front, k, out.messages);
  }

  /** `kept` is `front` and the messages from `k` on, the rest of a group cut at `k` turned into user messages. */
  predicate KeptBehind(messages: seq<Message>, front: seq<Message>, k: nat, kept: seq<Message>)
    requires k <= |messages|
  {
    && |kept| == |front| + |messages| - k && kept[..|front|] == front
    && forall p :: k <= p < |messages| ==>
         kept[|front| + p - k] == if ToolsSince(messages, k, p) then AsUser(messages[p]) else messages[p]
  }

  lemma RepairedBehind(messages: seq<Message>, front: seq<Message>, k: nat)
    requires WellGrouped(messages) && k <= |messages|
    requires forall i :: 0 <= i < |front| ==> front[i].role != Assistant && front[i].role != Tool
    ensures KeptBehind(messages, front, k, Repaired(front + messages[k..]))
  {
    hide WellGrouped, Answered, AsUser, Repaired;
    var all := front + messages[k..];
    RepairedAt(all);
    forall p | k <= p < |messages|
      ensures Repaired(all)[|front| + p - k]
              == if ToolsSince(messages, k, p) then AsUser(messages[p]) else messages[p]
    {
      assert all[|front| + p - k] == messages[p];
      if messages[p].role == Tool {
        LostCalls(messages, front, k, p);
      }
    }
    assert forall i :: 0 <= i < |front| ==> all[i] == front[i];
  }

  lemma UnchangedExactlyWhen(messages: seq<Message>, front: seq<Message>, k: nat, kept: seq<Message>)
    requires k <= |messages| && KeptBehind(messages, front, k, kept)
    ensures kept == front + messages[k..] <==> GroupBoundary(messages, k)
  {
    var all := front + messages[k..];
    assert kept == kept[..|front|] + kept[|front|..];
    if GroupBoundary(messages, k) {
      forall i | 0 <= i < |messages[k..]|
        ensures kept[|front|..][i] == messages[k..][i]
      {
        var p := k + i;
        assert kept[|front| + p - k] == messages[p];
      }
      assert kept[|front|..] == messages[k..];
    } else {
      assert kept[|front| + k - k] == AsUser(messages[k]) && all[|front|] == messages[k];
    }
  }

  /** A prefix that ends with a call: the answer right behind it comes back as a user message. */
  lemma AnswerLosesItsRole(s: Settings, messages: seq<Message>)
    requires s.preserveRecent == 1 && s.compressionRatio == 1.0
    requires |messages| == 5 && WellGrouped(messages)
    requires messages[2].role == Tool && messages[3].role == messages[4].role == User
    ensures CompressPreservingPrefix(s, messages, 2) == Some(Compressed(messages[2 := AsUser(messages[2])], ""))
  {
    hide CompressMessages, WellGrouped, KeptFrom, AsUser;
    var tail := messages[2..];
    NothingSummarised(s, tail);
    TailIsKeptExactlyWhen(s, messages, 2);
    CompressionShape(s, tail);
    PrefixIsVerbatim(s, messages, 2);
    var out := CompressMessages(s, tail).value;
    assert Front(tail, out.summary) == [];
    assert !ToolsSince(messages, 2, 3) && !ToolsSince(messages, 2, 4);
    assert out.messages[0 + 2 - 2] == AsUser(messages[2]);
    assert out.messages[0 + 3 - 2] == messages[3] && out.messages[0 + 4 - 2] == messages[4];
    assert messages[..2] + out.messages == messages[2 := AsUser(messages[2])];
  }

  /** Such a transcript: a question, a call, its answer and two more questions. */
  lemma CallAndAnswer(id: string, texts: seq<string>)
    requires id != "" && |texts| == 4
    ensures WellGrouped([
              Message(User, texts[0], None, None),
              Message(Assistant, "", Some([Call(id, "tool", "")]), None),
              Message(Tool, texts[1], None, Some(id)),
              Message(User, texts[2], None, None), Message(User, texts[3], None, None)])
  {
    var call := Message(Assistant, "", Some([Call(id, "tool", "")]), None);
    var messages := [
      Message(User, texts[0], None, None), call, Message(Tool, texts[1], None, Some(id)),
      Message(User, texts[2], None, None), Message(User, texts[3], None, None)];
    assert call.toolCalls.value[0].id == id && Answers(messages, 2, 1);
  }

  lemma NothingSummarised(s: Settings, tail: seq<Message>)
    requires s.preserveRecent == 1 && s.compressionRatio == 1.0
    requires |tail| == 3 && tail[0].role == Tool && tail[2].role == User
    ensures KeptFrom(s, tail) == 0 && MiddleStart(tail) == 0 && tail[0..0] == []
  {
    assert KeepCount(2, 1.0) == 2;
  }

  // ----- which messages are repaired -----

  /** An earlier assistant message has a call with the id that message `i` names; no id and the empty id name none. */
  ghost predicate HasItsCall(messages: seq<Message>, i: nat)
    requires i < |messages|
  {
    && messages[i].toolCallId.Some? && messages[i].toolCallId.value != ""
    && exists j, n ::
         && 0 <= j < i && messages[j].role == Assistant && messages[j].toolCalls.Some?
         && 0 <= n < |messages[j].toolCalls.value| && messages[j].toolCalls.value[n].id == messages[i].toolCallId.value
  }

  /** A tool message loses its role exactly when it has no earlier call. */
  lemma RepairedExactlyWhen(messages: seq<Message>, i: nat)
    requires i < |messages|
    ensures |Repaired(messages)| == |messages|
    ensures Repaired(messages)[i] == if messages[i].role == Tool && !HasItsCall(messages, i)
                                     then Message(User, messages[i].content, None, None) else messages[i]
  {
    RepairedAt(messages);
    if Answered(messages, i) {
      var j :| 0 <= j < i && messages[j].role == Assistant && Carries(messages[j], AnsweredId(messages[i]).value);
    }
    if HasItsCall(messages, i) {
      var j, n :| 0 <= j < i && messages[j].role == Assistant && messages[j].toolCalls.Some?
        && 0 <= n < |messages[j].toolCalls.value| && messages[j].toolCalls.value[n].id == messages[i].toolCallId.value;
      assert Carries(messages[j], messages[i].toolCallId.value);
    }
  }

  /** A boundary before a tool message that names no call stays where it is. */
  lemma NamelessBoundaryStays(messages: seq<Message>, boundary: nat)
    requires boundary < |messages|
    requires messages[boundary].toolCallId == None || messages[boundary].toolCallId == Some("")
    ensures AdjustBoundary(messages, boundary) == boundary
  {
  }
}

/** The conversation driver: two fixed personas take turns; each turn builds a prompt
    from the recent history, asks the generation client for a reply and appends
    "name: reply" to the history.  The endless loop is modelled over a finite
    sequence of response streams, one per turn, standing in for the server. */
module Podcast {
  import opened Builtins
  import opened LlmClient

  datatype Persona = Persona(name: string, personality: string)

  /** participants[turn % 2] with participants == [host, guest]. */
  function Speaker(host: Persona, guest: Persona, turn: nat): (p: Persona)
    ensures turn % 2 == 0 ==> p == host
    ensures turn % 2 == 1 ==> p == guest
  {
    [host, guest][turn % 2]
  }

  /** The speakers alternate: two turns later the same persona speaks again, and two
      consecutive turns are taken by the host and the guest, in some order. */
  lemma SpeakersAlternate(host: Persona, guest: Persona, turn: nat)
    ensures Speaker(host, guest, turn + 2) == Speaker(host, guest, turn)
    ensures {Speaker(host, guest, turn), Speaker(host, guest, turn + 1)} == {host, guest}
  {
  }

  // ---------------------------------------------------------------------------
  // The history window

  /** history[-historyLimit:]: for a positive limit the last historyLimit entries (all
      of them when there are fewer); a limit of 0 keeps every entry, because -0 is 0;
      a negative limit -k drops the first k entries. */
  function RecentWindow(history: seq<string>, historyLimit: int): (w: seq<string>)
    ensures 1 <= historyLimit ==> w == history[|history| - Min(|history|, historyLimit)..]
    ensures historyLimit == 0 ==> w == history
    ensures historyLimit < 0 ==> w == history[Min(-historyLimit, |history|)..]
  {
    SliceFrom(history, -historyLimit)
  }

  /** The recent-turns block of the prompt: the window joined by newlines, or
      "(start)" while the history is empty. */
  function RecentChat(history: seq<string>, historyLimit: int): string {
    if history != [] then JoinWith("\n", RecentWindow(history, historyLimit)) else "(start)"
  }

  /** The history entry recorded for a turn. */
  function Entry(name: string, reply: string): (e: string)
    ensures SpokenBy(e, name)
    ensures e[|name| + 2..] == reply
  {
    name + ": " + reply
  }

  /** The entry starts with the speaker's name followed by ": ". */
  predicate SpokenBy(entry: string, name: string) {
    |name| + 2 <= |entry| && entry[..|name| + 2] == name + ": "
  }

  /** When every entry carries a ':' (as every "name: reply" entry does), the block is
      "(start)" exactly when the history is empty. */
  lemma RecentChatStartsOnlyEmpty(history: seq<string>, historyLimit: int)
    requires forall k :: 0 <= k < |history| ==> ':' in history[k]
    ensures RecentChat(history, historyLimit) == "(start)" <==> history == []
  {
    if history != [] {
      var w := RecentWindow(history, historyLimit);
      var chat := JoinWith("\n", w);
      if w == [] {
        assert chat == [];
      } else {
        assert w[0] == history[|history| - |w|];
        var i :| 0 <= i < |w[0]| && w[0][i] == ':';
        assert chat[i] == ':';
        assert forall j :: 0 <= j < |"(start)"| ==> "(start)"[j] != ':';
      }
    }
  }

  /** The recent-turns block for a limit of 2 and three entries. */
  lemma RecentChatExample()
    ensures RecentChat(["A: hi", "B: hello", "A: how are you"], 2) == "B: hello\nA: how are you"
  {
    var history := ["A: hi", "B: hello", "A: how are you"];
    assert RecentWindow(history, 2) == ["B: hello", "A: how are you"];
  }

  // ---------------------------------------------------------------------------
  // The prompt

  /** x occurs in s as a contiguous piece. */
  ghost predicate Infix(x: string, s: string) {
    exists k :: 0 <= k <= |s| && x <= s[k..]
  }

  lemma InfixSelf(x: string)
    ensures Infix(x, x)
  {
    assert x[0..] == x;
  }

  lemma InfixGrows(x: string, s: string, a: string, b: string)
    requires Infix(x, s)
    ensures Infix(x, a + s) && Infix(x, s + b)
  {
    var k :| 0 <= k <= |s| && x <= s[k..];
    assert (a + s)[|a| + k..] == s[k..];
    assert x <= (s + b)[k..];
  }

  /** The prompt of one turn (main.py:71-76). */
  function Prompt(language: string, topic: string, host: Persona, guest: Persona,
                  speaker: Persona, recentChat: string): string
  {
    var opening := "Podcast conversation in " + language + ".";
    var about := " Topic: " + topic + ".";
    var hostIntro := host.name + " (" + host.personality + ") is a host and interviewer";
    var guestIntro := guest.name + " (" + guest.personality + ")";
    var turnLine := "Recent turns:\n" + recentChat + "\nYour turn: " + speaker.name + ".";
    var closing := " Be conversational, ~30 words max. Respond in " + language + ".";
    (opening + about + " Participants: ") + (hostIntro + ", " + guestIntro + ". ") + turnLine + closing
  }

  /** The prompt names the language and the topic, introduces both personas with
      their personalities, and holds the recent-turns block followed by the line that
      gives the speaker the turn. */
  lemma PromptMentions(language: string, topic: string, host: Persona, guest: Persona,
                       speaker: Persona, recentChat: string)
    ensures var p := Prompt(language, topic, host, guest, speaker, recentChat);
            && Infix("Podcast conversation in " + language + ".", p)
            && Infix(" Topic: " + topic + ".", p)
            && Infix(host.name + " (" + host.personality + ") is a host and interviewer", p)
            && Infix(guest.name + " (" + guest.personality + ")", p)
            && Infix("Recent turns:\n" + recentChat + "\nYour turn: " + speaker.name + ".", p)
  {
    var opening := "Podcast conversation in " + language + ".";
    var about := " Topic: " + topic + ".";
    var hostIntro := host.name + " (" + host.personality + ") is a host and interviewer";
    var guestIntro := guest.name + " (" + guest.personality + ")";
    var turnLine := "Recent turns:\n" + recentChat + "\nYour turn: " + speaker.name + ".";
    var closing := " Be conversational, ~30 words max. Respond in " + language + ".";
    var head := opening + about + " Participants: ";
    var cast := hostIntro + ", " + guestIntro + ". ";
    var p := head + cast + turnLine + closing;
    assert p == Prompt(language, topic, host, guest, speaker, recentChat);
    assert Infix(opening, p) by {
      InfixSelf(opening);
      InfixGrows(opening, opening, [], about);
      assert Infix(opening, opening + about);
      InfixGrows(opening, opening + about, [], " Participants: ");
      InfixGrows(opening, head, [], cast);
      InfixGrows(opening, head + cast, [], turnLine);
      InfixGrows(opening, head + cast + turnLine, [], closing);
    }
    assert Infix(about, p) by {
      InfixSelf(about);
      InfixGrows(about, about, opening, " Participants: ");
      assert Infix(about, opening + about);
      InfixGrows(about, opening + about, [], " Participants: ");
      InfixGrows(about, head, [], cast);
      InfixGrows(about, head + cast, [], turnLine);
      InfixGrows(about, head + cast + turnLine, [], closing);
    }
    assert Infix(hostIntro, p) by {
      InfixSelf(hostIntro);
      InfixGrows(hostIntro, hostIntro, [], ", ");
      InfixGrows(hostIntro, hostIntro + ", ", [], guestIntro);
      InfixGrows(hostIntro, hostIntro + ", " + guestIntro, [], ". ");
      InfixGrows(hostIntro, cast, head, []);
      InfixGrows(hostIntro, head + cast, [], turnLine);
      InfixGrows(hostIntro, head + cast + turnLine, [], closing);
    }
    assert Infix(guestIntro, p) by {
      InfixSelf(guestIntro);
      InfixGrows(guestIntro, guestIntro, hostIntro + ", ", ". ");
      InfixGrows(guestIntro, hostIntro + ", " + guestIntro, [], ". ");
      InfixGrows(guestIntro, cast, head, []);
      InfixGrows(guestIntro, head + cast, [], turnLine);
      InfixGrows(guestIntro, head + cast + turnLine, [], closing);
    }
    assert Infix(turnLine, p) by {
      InfixSelf(turnLine);
      InfixGrows(turnLine, turnLine, head + cast, closing);
      InfixGrows(turnLine, head + cast + turnLine, [], closing);
    }
  }

  // ---------------------------------------------------------------------------
  // The turn loop

  /** The replies generated from a sequence of response streams, one per turn. */
  function Replies(streams: seq<seq<Line>>): (replies: seq<string>)
    ensures |replies| == |streams|
  {
    if streams == [] then []
    else Replies(streams[..|streams| - 1]) + [GeneratedText(streams[|streams| - 1])]
  }

  /** Taking one more stream adds the reply generated from it. */
  lemma RepliesStep(streams: seq<seq<Line>>, i: nat)
    requires i < |streams|
    ensures Replies(streams[..i + 1]) == Replies(streams[..i]) + [GeneratedText(streams[i])]
  {
    assert streams[..i + 1][..i] == streams[..i];
  }

  /** Reply k is the text generated from stream k. */
  lemma {:induction false} RepliesAt(streams: seq<seq<Line>>)
    ensures forall k :: 0 <= k < |streams| ==> Replies(streams)[k] == GeneratedText(streams[k])
  {
    if streams != [] {
      var front := streams[..|streams| - 1];
      var replies := Replies(streams);
      assert replies == Replies(front) + [GeneratedText(streams[|streams| - 1])];
      RepliesAt(front);
      forall k | 0 <= k < |streams|
        ensures replies[k] == GeneratedText(streams[k])
      {
        if k < |front| {
          assert replies[k] == Replies(front)[k];
          assert streams[k] == front[k];
        } else {
          assert k == |streams| - 1;
        }
      }
    }
  }

  /** The state of run_conversation: the two personas and the settings stay fixed;
      history and the turn counter change once per turn. */
  class Conversation {
    const host: Persona
    const guest: Persona
    const topic: string
    const language: string
    const historyLimit: int
    var history: seq<string>
    var turn: nat

    /** One entry per completed turn, each attributed to the persona whose turn it was. */
    ghost predicate Valid()
      reads this
    {
      && |history| == turn
      && forall k :: 0 <= k < |history| ==> SpokenBy(history[k], Speaker(host, guest, k).name)
    }

    constructor (host: Persona, guest: Persona, topic: string, language: string, historyLimit: int)
      ensures Valid()
      ensures this.host == host && this.guest == guest && this.topic == topic
      ensures this.language == language && this.historyLimit == historyLimit
      ensures history == [] && turn == 0
    {
      this.host := host;
      this.guest := guest;
      this.topic := topic;
      this.language := language;
      this.historyLimit := historyLimit;
      history := [];
      turn := 0;
    }

    /** The prompt a turn sends when the history so far is h: the speaker is the
        persona whose turn number is |h|, the recent-turns block is built from h. */
    function PromptFor(h: seq<string>): string {
      Prompt(language, topic, host, guest, Speaker(host, guest, |h|), RecentChat(h, historyLimit))
    }

    /** The history after turns with the given replies have been taken from history h. */
    function After(h: seq<string>, replies: seq<string>): (h': seq<string>)
      ensures |h'| == |h| + |replies|
    {
      if replies == [] then h
      else
        var before := After(h, replies[..|replies| - 1]);
        before + [Entry(Speaker(host, guest, |before|).name, replies[|replies| - 1])]
    }

    /** The prompts those turns send, in order. */
    function PromptsAfter(h: seq<string>, replies: seq<string>): (prompts: seq<string>)
      ensures |prompts| == |replies|
    {
      if replies == [] then []
      else
        var front := replies[..|replies| - 1];
        PromptsAfter(h, front) + [PromptFor(After(h, front))]
    }

    /** One more turn appends the entry of the persona whose turn it is, and the
        prompt built from the history before it. */
    lemma AfterStep(h: seq<string>, replies: seq<string>, reply: string)
      ensures After(h, replies + [reply])
              == After(h, replies) + [Entry(Speaker(host, guest, |h| + |replies|).name, reply)]
      ensures PromptsAfter(h, replies + [reply]) == PromptsAfter(h, replies) + [PromptFor(After(h, replies))]
    {
      var more := replies + [reply];
      var front := more[..|more| - 1];
      assert front == replies;
      assert more[|more| - 1] == reply;
      assert |After(h, front)| == |h| + |replies|;
      assert After(h, more) == After(h, front) + [Entry(Speaker(host, guest, |After(h, front)|).name, reply)];
      assert PromptsAfter(h, more) == PromptsAfter(h, front) + [PromptFor(After(h, front))];
    }

    /** The turns keep the entries already there and append, for turn t, the entry
        of the persona whose turn t is, holding the reply of that turn. */
    lemma {:induction false} AfterEntries(h: seq<string>, replies: seq<string>)
      ensures After(h, replies)[..|h|] == h
      ensures forall k :: 0 <= k < |replies| ==>
                After(h, replies)[|h| + k] == Entry(Speaker(host, guest, |h| + k).name, replies[k])
    {
      if replies != [] {
        var front := replies[..|replies| - 1];
        var before := After(h, front);
        AfterEntries(h, front);
        forall k | 0 <= k < |replies|
          ensures After(h, replies)[|h| + k] == Entry(Speaker(host, guest, |h| + k).name, replies[k])
        {
          if k < |front| {
            assert After(h, replies)[|h| + k] == before[|h| + k];
            assert replies[k] == front[k];
          }
        }
        assert After(h, replies)[..|h|] == before[..|h|];
      }
    }

    /** Taking the turns of a longer sequence of replies first takes those of its
        prefix. */
    lemma {:induction false} AfterPrefix(h: seq<string>, replies: seq<string>, n: nat)
      requires n <= |replies|
      ensures After(h, replies)[..|h| + n] == After(h, replies[..n])
      decreases |replies|
    {
      if n < |replies| {
        var front := replies[..|replies| - 1];
        AfterPrefix(h, front, n);
        assert front[..n] == replies[..n];
        assert After(h, replies)[..|h| + n] == After(h, front)[..|h| + n];
      } else {
        assert replies[..n] == replies;
      }
    }

    /** Turn k sends the prompt built from the history as it stood after the first k
        turns. */
    lemma {:induction false} PromptsAfterAt(h: seq<string>, replies: seq<string>)
      ensures forall k :: 0 <= k < |replies| ==>
                PromptsAfter(h, replies)[k] == PromptFor(After(h, replies)[..|h| + k])
    {
      if replies != [] {
        var front := replies[..|replies| - 1];
        PromptsAfterAt(h, front);
        forall k | 0 <= k < |replies|
          ensures PromptsAfter(h, replies)[k] == PromptFor(After(h, replies)[..|h| + k])
        {
          AfterPrefix(h, replies, k);
          if k < |front| {
            AfterPrefix(h, front, k);
            assert front[..k] == replies[..k];
          } else {
            assert replies[..k] == front;
          }
        }
      }
    }

    /** Every entry the turns append is spoken by the persona whose turn it was, so
        the conversation invariant survives any number of turns. */
    lemma AfterKeepsSpeakers(h: seq<string>, replies: seq<string>)
      requires forall k :: 0 <= k < |h| ==> SpokenBy(h[k], Speaker(host, guest, k).name)
      ensures forall k :: 0 <= k < |h| + |replies| ==>
                SpokenBy(After(h, replies)[k], Speaker(host, guest, k).name)
    {
      AfterEntries(h, replies);
      var h' := After(h, replies);
      forall k | 0 <= k < |h'|
        ensures SpokenBy(h'[k], Speaker(host, guest, k).name)
      {
        if k < |h| {
          assert h'[k] == h'[..|h|][k];
        } else {
          assert h'[|h| + (k - |h|)] == Entry(Speaker(host, guest, k).name, replies[k - |h|]);
        }
      }
    }

    /** One pass of the loop body (main.py:67-83): pick the speaker, build the prompt,
        take the reply generated from this turn's response stream, append
        "name: reply" to the history and advance the turn. */
    method TakeTurn(stream: seq<Line>) returns (prompt: string, reply: string)
      requires Valid()
      modifies this
      ensures Valid()
      ensures prompt == PromptFor(old(history))
      ensures reply == GeneratedText(stream)
      ensures history == old(history) + [Entry(Speaker(host, guest, old(turn)).name, reply)]
      ensures turn == old(turn) + 1
    {
      var speaker := Speaker(host, guest, turn);
      var recentChat := RecentChat(history, historyLimit);
      prompt := Prompt(language, topic, host, guest, speaker, recentChat);
      reply := Generate(stream);
      ghost var before := history;
      history := history + [Entry(speaker.name, reply)];
      turn := turn + 1;
      forall k | 0 <= k < |history|
        ensures SpokenBy(history[k], Speaker(host, guest, k).name)
      {
        if k < |before| {
          assert history[k] == before[k];
        }
      }
    }

    /** The loop of run_conversation, run for as many turns as there are response
        streams: the replies are those generated from the streams, the history grows
        by the turns taking them, and the prompts are those those turns send. */
    method Run(streams: seq<seq<Line>>) returns (prompts: seq<string>, replies: seq<string>)
      requires Valid()
      modifies this
      ensures Valid()
      ensures turn == old(turn) + |streams|
      ensures replies == Replies(streams)
      ensures history == After(old(history), replies)
      ensures prompts == PromptsAfter(old(history), replies)
    {
      prompts := [];
      replies := [];
      var i := 0;
      while i < |streams|
        invariant 0 <= i <= |streams|
        invariant Valid()
        invariant turn == old(turn) + i
        invariant replies == Replies(streams[..i])
        invariant history == After(old(history), replies)
        invariant prompts == PromptsAfter(old(history), replies)
      {
        RepliesStep(streams, i);
        AfterStep(old(history), replies, GeneratedText(streams[i]));
        var prompt, reply := TakeTurn(streams[i]);
        prompts := prompts + [prompt];
        replies := replies + [reply];
        i := i + 1;
      }
      assert streams[..i] == streams;
    }
  }
}

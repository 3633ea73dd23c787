/**
 * The chat state of the `App` component (src/App.tsx): the question being
 * typed, the selected file, the loading flag and the chat history, with
 * the handlers that change them. The history alternates a user message
 * and the one AI message that answers it; the sidebar lists the user
 * messages only, and its delete button removes a question together with
 * its answer.
 */
module ChatApp {
  import opened Wrappers
  import opened Text
  import opened SeqOps
  import opened Generation

  /** The `type` field of a history entry: "user" or "ai". */
  datatype Sender = User | Ai

  /** One history entry: `{ type, content, timestamp }`. */
  datatype Message = Message(sender: Sender, content: string, timestamp: int)

  /** The parts of a browser `File` the handlers read. */
  datatype FileInfo = FileInfo(name: string, size: nat)

  /** The outcome of reading the selected file into base64 (its content is never used). */
  datatype FileRead = ReadOk | ReadError

  /** The largest accepted upload, 5 MiB; a file of exactly this size is accepted. */
  const MaxFileSize: nat := 5 * 1024 * 1024

  /** The AI message stored when the generation call fails. */
  const AnswerError := "An error occurred while generating the answer."

  /** The content of the AI message that answers a call. */
  function AnswerText(reply: Reply): (text: string)
    ensures reply.Generated? ==> text == reply.text
    ensures reply.Failed? ==> text == AnswerError
  {
    match reply
    case Generated(t) => t
    case Failed => AnswerError
  }

  /**
   * The history is a run of exchanges: a user message, then the AI
   * message that answers it, and so on; so its length is even.
   */
  predicate Paired(history: seq<Message>)
    decreases |history|
  {
    |history| == 0
    || (|history| >= 2 && history[0].sender == User && history[1].sender == Ai && Paired(history[2..]))
  }

  /** `chatHistory.filter(msg => msg.type === "user")`: the list the sidebar shows. */
  function UserView(history: seq<Message>): (view: seq<Message>)
    ensures |view| <= |history|
    ensures forall k :: 0 <= k < |view| ==> view[k].sender == User
    decreases |history|
  {
    if |history| == 0 then []
    else
      var rest := UserView(history[1..]);
      if history[0].sender == User then [history[0]] + rest else rest
  }

  /**
   * The sidebar keeps the user messages in their history order, each as
   * often as it occurs, and nothing else.
   */
  lemma {:induction false} UserViewSelects(history: seq<Message>)
    ensures IsSubseq(UserView(history), history)
    ensures forall m :: multiset(UserView(history))[m] == if m.sender == User then multiset(history)[m] else 0
    decreases |history|
  {
    if |history| > 0 {
      UserViewSelects(history[1..]);
      assert history == [history[0]] + history[1..];
    }
  }

  /** In a paired history the sidebar's entry `i` is the question at `2 * i`. */
  lemma {:induction false} UserViewOfPaired(history: seq<Message>, i: nat)
    requires Paired(history)
    requires 2 * i < |history|
    ensures i < |UserView(history)| && UserView(history)[i] == history[2 * i]
    decreases i
  {
    PairedCount(history);
    var tail := history[2..];
    assert history[1..][1..] == tail;
    assert UserView(history) == [history[0]] + UserView(tail);
    if i > 0 {
      UserViewOfPaired(tail, i - 1);
      assert tail[2 * (i - 1)] == history[2 * i];
    }
  }

  /** Filtering distributes over concatenation. */
  lemma {:induction false} UserViewConcat(a: seq<Message>, b: seq<Message>)
    ensures UserView(a + b) == UserView(a) + UserView(b)
    decreases |a|
  {
    if |a| > 0 {
      UserViewConcat(a[1..], b);
      assert (a + b)[0] == a[0];
      assert (a + b)[1..] == a[1..] + b;
    } else {
      assert a + b == b;
    }
  }

  /** A paired history has even length and one sidebar entry per exchange. */
  lemma {:induction false} PairedCount(history: seq<Message>)
    requires Paired(history)
    ensures |history| % 2 == 0
    ensures |UserView(history)| == |history| / 2
    decreases |history|
  {
    if |history| > 0 {
      PairedCount(history[2..]);
      assert history[1..][1..] == history[2..];
    }
  }

  /** Cutting a paired history between two exchanges leaves two paired histories. */
  lemma {:induction false} PairedSplit(history: seq<Message>, i: nat)
    requires Paired(history)
    requires 2 * i <= |history|
    ensures Paired(history[..2 * i]) && Paired(history[2 * i..])
    decreases i
  {
    if i > 0 {
      var tail := history[2..];
      PairedSplit(tail, i - 1);
      assert tail[2 * (i - 1)..] == history[2 * i..];
      var front := history[..2 * i];
      assert front[2..] == tail[..2 * (i - 1)];
    }
  }

  /** Joining two paired histories gives a paired history. */
  lemma {:induction false} PairedConcat(a: seq<Message>, b: seq<Message>)
    requires Paired(a) && Paired(b)
    ensures Paired(a + b)
    decreases |a|
  {
    if |a| > 0 {
      PairedConcat(a[2..], b);
      assert (a + b)[0] == a[0] && (a + b)[1] == a[1];
      assert (a + b)[2..] == a[2..] + b;
    } else {
      assert a + b == b;
    }
  }

  /**
   * One exchange, a user message followed by an AI message, keeps the
   * history paired and adds exactly that question to the sidebar.
   */
  lemma AppendExchange(history: seq<Message>, asked: Message, answer: Message)
    requires asked.sender == User && answer.sender == Ai
    ensures Paired(history) ==> Paired(history + [asked, answer])
    ensures UserView(history + [asked, answer]) == UserView(history) + [asked]
  {
    var pair := [asked, answer];
    assert pair[2..] == [];
    assert Paired(pair);
    assert pair[1..][1..] == [];
    UserViewConcat(history, pair);
    if Paired(history) { PairedConcat(history, pair); }
  }

  /** The sidebar of a history with one exchange in the middle holds that exchange's question in the middle. */
  lemma ExchangeView(front: seq<Message>, asked: Message, answer: Message, back: seq<Message>)
    requires asked.sender == User && answer.sender == Ai
    ensures UserView(front + [asked, answer] + back) == UserView(front) + [asked] + UserView(back)
  {
    UserViewConcat(front + [asked, answer], back);
    AppendExchange(front, asked, answer);
  }

  /** In a paired history entry `2 * i` is a question and entry `2 * i + 1` its answer. */
  lemma {:induction false} ExchangeSenders(history: seq<Message>, i: nat)
    requires Paired(history)
    requires 2 * i < |history|
    ensures 2 * i + 2 <= |history|
    ensures history[2 * i].sender == User && history[2 * i + 1].sender == Ai
    decreases i
  {
    if i > 0 {
      var tail := history[2..];
      ExchangeSenders(tail, i - 1);
      assert tail[2 * (i - 1)] == history[2 * i] && tail[2 * (i - 1) + 1] == history[2 * i + 1];
    }
  }

  /** A paired history is the exchanges before `2 * i`, the exchange at `2 * i`, and the exchanges after it. */
  lemma ExchangeAt(history: seq<Message>, i: nat)
    requires Paired(history)
    requires 2 * i < |history|
    ensures 2 * i + 2 <= |history|
    ensures history[2 * i].sender == User && history[2 * i + 1].sender == Ai
    ensures Paired(history[..2 * i]) && Paired(history[2 * i + 2..])
    ensures history == history[..2 * i] + [history[2 * i], history[2 * i + 1]] + history[2 * i + 2..]
  {
    ExchangeSenders(history, i);
    PairedSplit(history, i);
    PairedSplit(history, i + 1);
    AroundPair(history, 2 * i);
  }

  /**
   * Deleting the `i`-th question of the sidebar, `splice(2 * i, 2)`,
   * removes exactly that question and its answer: the history stays
   * paired and the sidebar loses exactly its entry `i`.
   */
  lemma DeleteQuestion(history: seq<Message>, i: nat)
    requires Paired(history)
    requires 2 * i < |history|
    ensures 2 * i + 2 <= |history|
    ensures Splice(history, 2 * i, 2) == history[..2 * i] + history[2 * i + 2..]
    ensures Paired(Splice(history, 2 * i, 2))
    ensures |UserView(history)| == |history| / 2
    ensures UserView(Splice(history, 2 * i, 2)) == UserView(history)[..i] + UserView(history)[i + 1..]
  {
    PairedCount(history);
    ExchangeAt(history, i);
    var front, back := history[..2 * i], history[2 * i + 2..];
    PairedCount(front);
    PairedConcat(front, back);
    UserViewConcat(front, back);
    ExchangeView(front, history[2 * i], history[2 * i + 1], back);
    AroundOne(UserView(front), history[2 * i], UserView(back));
    SpliceAt(history, 2 * i, 2);
  }

  /**
   * `splice(2 * index, 2)` keeps a paired history paired for every
   * index, negative ones included: on an even length the start it picks
   * is even, so it removes either nothing or one whole exchange.
   */
  lemma DeletePairKeepsPaired(history: seq<Message>, index: int)
    requires Paired(history)
    ensures Paired(Splice(history, 2 * index, 2))
  {
    PairedCount(history);
    var st := SpliceStart(|history|, 2 * index);
    assert st % 2 == 0;
    if st < |history| {
      var j := st / 2;
      SpliceSameStart(history, 2 * index, 2 * j, 2);
      DeleteQuestion(history, j);
    } else {
      SpliceSameStart(history, 2 * index, |history|, 2);
      SpliceAt(history, |history|, 2);
    }
  }

  /**
   * A question still waiting for its answer, deleted from the sidebar
   * before the answer arrives, leaves that answer behind unpaired: the
   * deletion removes the pending question alone, and appending the late
   * answer gives a history that is no longer paired.
   */
  lemma DeleteWhileAwaitingAnswer(history: seq<Message>, asked: Message, answer: Message)
    requires Paired(history)
    requires asked.sender == User && answer.sender == Ai
    ensures Splice(history + [asked], |history|, 2) == history
    ensures !Paired(Splice(history + [asked], |history|, 2) + [answer])
  {
    SpliceLast(history, asked);
    PairedCount(history);
    var late := history + [answer];
    assert |late| == |history| + 1;
    OddUnpaired(late);
    assert Splice(history + [asked], |history|, 2) + [answer] == late;
  }

  /** A history of odd length is not paired. */
  lemma OddUnpaired(history: seq<Message>)
    requires |history| % 2 == 1
    ensures !Paired(history)
  {
    if Paired(history) {
      PairedCount(history);
    }
  }

  /** The component's chat state. */
  class App {
    var question: string
    var chatHistory: seq<Message>
    var loading: bool
    var selectedFile: Option<FileInfo>

    ghost predicate Valid()
      reads this
    {
      Paired(chatHistory)
    }

    /** The initial state: an empty question and history, no file, not loading. */
    constructor ()
      ensures question == "" && chatHistory == [] && !loading && selectedFile == None
      ensures Valid()
    {
      question := "";
      chatHistory := [];
      loading := false;
      selectedFile := None;
    }

    /**
     * `handleFileChange`: with no file chosen, or a file larger than
     * `MaxFileSize`, nothing changes; otherwise the file is selected and
     * " [File: name]" is appended to the question.
     */
    method HandleFileChange(file: Option<FileInfo>)
      modifies this
      ensures file.None? || file.value.size > MaxFileSize ==>
        question == old(question) && selectedFile == old(selectedFile)
      ensures file.Some? && file.value.size <= MaxFileSize ==>
        selectedFile == file && question == old(question) + " [File: " + file.value.name + "]"
      ensures chatHistory == old(chatHistory) && loading == old(loading)
    {
      if file.Some? {
        if file.value.size > MaxFileSize {
          return;
        }
        selectedFile := file;
        question := question + " [File: " + file.value.name + "]";
      }
    }

    /**
     * `processQuestion(newQuestion)`: appends the user message, clears the
     * question and the file, sends the message content as the prompt and
     * appends one AI message with the reply, or `AnswerError` when the
     * call fails. `repliedAt` is the clock reading after the call.
     */
    method ProcessQuestion(newQuestion: Message, reply: Reply, repliedAt: int) returns (prompt: string)
      requires newQuestion.sender == User
      modifies this
      ensures prompt == newQuestion.content
      ensures chatHistory == old(chatHistory) + [newQuestion, Message(Ai, AnswerText(reply), repliedAt)]
      ensures UserView(chatHistory) == UserView(old(chatHistory)) + [newQuestion]
      ensures question == "" && selectedFile == None && loading == old(loading)
      ensures old(Valid()) ==> Valid()
    {
      chatHistory := chatHistory + [newQuestion];
      question := "";
      selectedFile := None;
      prompt := newQuestion.content;
      var answer := Message(Ai, AnswerText(reply), repliedAt);
      chatHistory := chatHistory + [answer];
      AppendExchange(old(chatHistory), newQuestion, answer);
    }

    /**
     * `generateAnswer`: a blank question with no file changes nothing and
     * makes no call. Otherwise the user message holds the question, plus
     * " (File: name)" when a file is selected; if reading that file fails
     * the history, question and file stay as they were; else the exchange
     * is processed. `loading` is false at the end either way. `sentAt` is
     * the clock reading at submission; `prompt` is what was sent, if
     * anything.
     */
    method GenerateAnswer(sentAt: int, read: FileRead, reply: Reply, repliedAt: int) returns (prompt: Option<string>)
      modifies this
      ensures Trim(old(question)) == "" && old(selectedFile).None? ==>
        prompt == None && question == old(question) && chatHistory == old(chatHistory)
        && selectedFile == old(selectedFile) && loading == old(loading)
      ensures !(Trim(old(question)) == "" && old(selectedFile).None?) ==> !loading
      ensures !(Trim(old(question)) == "" && old(selectedFile).None?) && old(selectedFile).Some? && read == ReadError ==>
        prompt == None && question == old(question) && chatHistory == old(chatHistory) && selectedFile == old(selectedFile)
      ensures !(Trim(old(question)) == "" && old(selectedFile).None?) && (old(selectedFile).None? || read == ReadOk) ==>
        var content := if old(selectedFile).Some? then old(question) + " (File: " + old(selectedFile).value.name + ")" else old(question);
        && prompt == Some(content)
        && chatHistory == old(chatHistory) + [Message(User, content, sentAt), Message(Ai, AnswerText(reply), repliedAt)]
        && question == "" && selectedFile == None
      ensures old(Valid()) ==> Valid()
    {
      if Trim(question) == "" && selectedFile.None? {
        return None;
      }
      loading := true;
      var content := question;
      if selectedFile.Some? {
        if read == ReadError {
          loading := false;
          return None;
        }
        content := content + " (File: " + selectedFile.value.name + ")";
      }
      var sent := ProcessQuestion(Message(User, content, sentAt), reply, repliedAt);
      prompt := Some(sent);
      loading := false;
    }

    /**
     * `deleteHistoryItem(index)`: `splice(index * 2, 2)` on a copy of the
     * history. For an index inside the history the entries at `2 * index`
     * and `2 * index + 1` that exist are removed and the rest keep their
     * order; an index at or past the end changes nothing; a negative index
     * counts back from the end as `splice` does.
     */
    method DeleteHistoryItem(index: int)
      modifies this`chatHistory
      ensures chatHistory == Splice(old(chatHistory), 2 * index, 2)
      ensures 0 <= index && 2 * index >= |old(chatHistory)| ==> chatHistory == old(chatHistory)
      ensures 0 <= index && 2 * index < |old(chatHistory)| ==>
        chatHistory == old(chatHistory)[..2 * index] + old(chatHistory)[Min(2 * index + 2, |old(chatHistory)|)..]
      ensures 0 <= index && 2 * index + 1 == |old(chatHistory)| ==> chatHistory == old(chatHistory)[..2 * index]
      ensures old(Valid()) && 0 <= index < |UserView(old(chatHistory))| ==>
        UserView(chatHistory) == UserView(old(chatHistory))[..index] + UserView(old(chatHistory))[index + 1..]
      ensures old(Valid()) ==> Valid()
    {
      var newHistory := Splice(chatHistory, 2 * index, 2);
      if 0 <= index {
        SpliceAt(chatHistory, 2 * index, 2);
      }
      if Paired(chatHistory) {
        PairedCount(chatHistory);
        if 0 <= index && 2 * index < |chatHistory| { DeleteQuestion(chatHistory, index); }
        DeletePairKeepsPaired(chatHistory, index);
      }
      chatHistory := newHistory;
    }

    /** `clearChat`: the history becomes empty. */
    method ClearChat()
      modifies this`chatHistory
      ensures chatHistory == []
      ensures Valid()
    {
      chatHistory := [];
    }
  }
}

/**
  The state of the `Chat` component (web/src/components/Chat.tsx): the
  message log, the text field and the loading flag, changed by the
  history load on mount, by `handleSendMessage` and its continuations,
  by typing and by the Enter key.  HTTP replies are method arguments;
  a request that is in flight is remembered by the input it captured.
*/
module ChatSession {
  import opened JsString
  import opened Transcript

  /** One entry of the log; the timestamp is not modelled. */
  datatype ChatMessage = ChatMessage(text: string, isUser: bool)

  /** What a JS template literal prints for a missing array element. */
  const Undefined: string := "undefined"

  /** `!s.trim()`: the text holds nothing but white space. */
  predicate Blank(s: string)
    ensures Blank(s) <==> AllWhiteSpace(s)
  {
    TrimSpec(s);
    Trim(s) == []
  }

  /** The entry shown for the user's own message. */
  function UserEntry(input: string): ChatMessage
  {
    ChatMessage(QueryPrefix + input, true)
  }

  /** The entry appended when the server answers `input` with `answer`. */
  function BotEntry(input: string, answer: string): ChatMessage
  {
    ChatMessage(QueryPrefix + input + ResponseSeparator + answer, false)
  }

  /** The string the server stores for one exchange (api/app.py). */
  function ServerRecord(query: string, response: string): string
  {
    QueryPrefix + query + ResponseSeparator + response
  }

  /** The entry rebuilt from a stored string: the first two pieces of its
      split on the separator, or the text "undefined" when it has none. */
  function HistoryEntry(stored: string): ChatMessage
  {
    var parts := Split(stored, ResponseSeparator);
    var response := if |parts| > 1 then parts[1] else Undefined;
    ChatMessage(QueryPrefix + parts[0] + ResponseSeparator + response, false)
  }

  /** The log rebuilt from the fetched history, one entry per string, in order. */
  function HistoryEntries(fetched: seq<string>): (log: seq<ChatMessage>)
    ensures |log| == |fetched|
    ensures forall i :: 0 <= i < |fetched| ==> log[i] == HistoryEntry(fetched[i]) && !log[i].isUser
  {
    if |fetched| == 0 then []
    else [HistoryEntry(fetched[0])] + HistoryEntries(fetched[1..])
  }

  /** "undefined" cannot hold the separator. */
  lemma UndefinedIsFree()
    ensures !Contains(Undefined, ResponseSeparator)
  {
    FirstCharAbsent(Undefined, ResponseSeparator);
  }

  /** A rebuilt entry is "Query: " followed by: the stored string and
      "\nResponse: undefined" when it has no separator; the stored string
      itself when it has one; and, when it has more, the stored string cut
      just before its second separator. */
  lemma HistoryEntryText(stored: string)
    ensures StartsWith(HistoryEntry(stored).text, QueryPrefix)
    ensures CountOcc(stored, ResponseSeparator) == 0 ==>
              HistoryEntry(stored).text == QueryPrefix + stored + ResponseSeparator + Undefined
    ensures CountOcc(stored, ResponseSeparator) == 1 ==>
              HistoryEntry(stored).text == QueryPrefix + stored
    ensures CountOcc(stored, ResponseSeparator) >= 2 ==>
              var kept := HistoryEntry(stored).text[|QueryPrefix|..];
              StartsWith(stored, kept) && OccursAt(stored, ResponseSeparator, |kept|) &&
              CountOcc(kept, ResponseSeparator) == 1
  {
    ResponseSeparatorUnique();
    var parts := Split(stored, ResponseSeparator);
    SplitCount(stored, ResponseSeparator);
    SplitFirstTwo(stored, ResponseSeparator);
    PrefixedPieces(QueryPrefix, parts[0], ResponseSeparator, if |parts| > 1 then parts[1] else Undefined);
  }

  /** `pre + a + sep + b` is `pre` followed by `a + sep + b`. */
  lemma PrefixedPieces(pre: string, a: string, sep: string, b: string)
    ensures pre + a + sep + b == pre + (a + sep + b)
    ensures StartsWith(pre + a + sep + b, pre) && (pre + a + sep + b)[|pre|..] == a + sep + b
  {
    var t := pre + a + sep + b;
    assert t == pre + (a + sep + b);
    assert t[..|pre|] == pre;
  }

  /** Every rebuilt entry renders as an exchange, never as plain text: the
      label is the stored text before its first separator, the body the
      text up to the next separator, or "undefined". */
  lemma HistoryEntryRendering(stored: string)
    ensures var parts := Split(stored, ResponseSeparator);
            FormatMessageText(HistoryEntry(stored).text) ==
            Exchange(parts[0], RenderBody(if |parts| > 1 then parts[1] else Undefined))
  {
    var sep := ResponseSeparator;
    var parts := Split(stored, sep);
    var response := if |parts| > 1 then parts[1] else Undefined;
    UndefinedIsFree();
    assert !Contains(parts[0], sep);
    PrefixKeepsFree(QueryPrefix, parts[0], sep);
    FormatPair(QueryPrefix + parts[0], response);
    QueryLabelStripsOnce(parts[0]);
  }

  /** A record stored by the server reloads as an exchange whose label
      still begins with "Query: ": the stored text carries one prefix and
      the rebuilt entry adds a second, of which only one is removed. */
  lemma ServerRecordReload(query: string, response: string)
    requires !Contains(query, ResponseSeparator) && !Contains(response, ResponseSeparator)
    ensures HistoryEntry(ServerRecord(query, response)).text == QueryPrefix + ServerRecord(query, response)
    ensures FormatMessageText(HistoryEntry(ServerRecord(query, response)).text) ==
            Exchange(QueryPrefix + query, RenderBody(response))
  {
    var sep := ResponseSeparator;
    var record := ServerRecord(query, response);
    ResponseSeparatorUnique();
    PrefixKeepsFree(QueryPrefix, query, sep);
    SplitJoinFree(QueryPrefix + query, sep, response);
    SplitCount(record, sep);
    HistoryEntryText(record);
    HistoryEntryRendering(record);
  }

  /** The same exchange seen live renders with the bare query as label. */
  lemma BotEntryRendering(input: string, answer: string)
    requires !Contains(input, ResponseSeparator) && !Contains(answer, ResponseSeparator)
    ensures BotEntry(input, answer).text == ServerRecord(input, answer)
    ensures FormatMessageText(BotEntry(input, answer).text) == Exchange(input, RenderBody(answer))
  {
    PrefixKeepsFree(QueryPrefix, input, ResponseSeparator);
    FormatPair(QueryPrefix + input, answer);
    QueryLabelStripsOnce(input);
  }

  /** The user's entry renders as plain text unless the input itself holds
      exactly one separator, in which case it too renders as an exchange. */
  lemma UserEntryRendering(input: string)
    ensures FormatMessageText(UserEntry(input).text).Whole? <==> CountOcc(input, ResponseSeparator) != 1
    ensures FormatMessageText(UserEntry(input).text).Whole? ==>
              FormatMessageText(UserEntry(input).text).text == QueryPrefix + input
  {
    FormatFallback(QueryPrefix + input);
    CountOccPrefixFree(QueryPrefix, input, ResponseSeparator);
  }

  /** The component's state. `pending` holds the input captured by the
      request in flight, which its continuation echoes. */
  class Chat {
    var messages: seq<ChatMessage>
    var inputMessage: string
    var isLoading: bool
    var pending: Option<string>

    /** Loading exactly while a request is in flight, and only non-blank
        input is ever sent. */
    ghost predicate Valid()
      reads this
    {
      (isLoading <==> pending.Some?) && (pending.Some? ==> !Blank(pending.value))
    }

    /** The initial state: no messages, empty field, not loading. */
    constructor()
      ensures Valid()
      ensures messages == [] && inputMessage == "" && !isLoading && pending == None
    {
      messages := [];
      inputMessage := "";
      isLoading := false;
      pending := None;
    }

    /** The send button is enabled. */
    predicate CanSend()
      reads this
      ensures CanSend() <==> !AllWhiteSpace(inputMessage) && !isLoading
    {
      !Blank(inputMessage) && !isLoading
    }

    /** Typing into the field, which is disabled while loading. */
    method EditInput(value: string)
      requires Valid() && !isLoading
      modifies this
      ensures Valid()
      ensures inputMessage == value
      ensures messages == old(messages) && isLoading == old(isLoading) && pending == old(pending)
    {
      inputMessage := value;
    }

    /** `handleSendMessage`, reachable only while the field is enabled: a
        blank input changes nothing; otherwise the user's entry is appended,
        the field cleared and a request started. The log grows exactly when
        the button is enabled. */
    method Submit()
      requires Valid() && !isLoading
      modifies this
      ensures Valid()
      ensures old(CanSend()) <==> messages != old(messages)
      ensures !old(CanSend()) ==>
                messages == old(messages) && inputMessage == old(inputMessage) &&
                isLoading == old(isLoading) && pending == old(pending)
      ensures old(CanSend()) ==>
                messages == old(messages) + [UserEntry(old(inputMessage))] &&
                inputMessage == "" && isLoading && pending == Some(old(inputMessage))
    {
      if Blank(inputMessage) {
        return;
      }
      messages := messages + [UserEntry(inputMessage)];
      pending := Some(inputMessage);
      inputMessage := "";
      isLoading := true;
    }

    /** `handleKeyPress`: Enter sends, any other key does nothing. */
    method KeyPress(key: string)
      requires Valid() && !isLoading
      modifies this
      ensures Valid()
      ensures key != "Enter" ==>
                messages == old(messages) && inputMessage == old(inputMessage) &&
                isLoading == old(isLoading) && pending == old(pending)
      ensures key == "Enter" && old(CanSend()) ==>
                messages == old(messages) + [UserEntry(old(inputMessage))] &&
                inputMessage == "" && isLoading && pending == Some(old(inputMessage))
      ensures key == "Enter" && !old(CanSend()) ==>
                messages == old(messages) && inputMessage == old(inputMessage) &&
                isLoading == old(isLoading) && pending == old(pending)
    {
      if key == "Enter" {
        Submit();
      }
    }

    /** The request succeeded: a second entry echoing the captured input and
        the answer is appended after the user's entry, and loading ends. */
    method CompleteOk(answer: string)
      requires Valid() && isLoading
      modifies this
      ensures Valid()
      ensures messages == old(messages) + [BotEntry(old(pending).value, answer)]
      ensures !isLoading && pending == None && inputMessage == old(inputMessage)
    {
      messages := messages + [BotEntry(pending.value, answer)];
      isLoading := false;
      pending := None;
    }

    /** The request failed: nothing is appended and loading ends. */
    method CompleteFail()
      requires Valid() && isLoading
      modifies this
      ensures Valid()
      ensures messages == old(messages)
      ensures !isLoading && pending == None && inputMessage == old(inputMessage)
    {
      isLoading := false;
      pending := None;
    }

    /** The history arrived: the log is replaced by the rebuilt entries. */
    method HistoryOk(fetched: seq<string>)
      requires Valid()
      modifies this
      ensures Valid()
      ensures messages == HistoryEntries(fetched)
      ensures inputMessage == old(inputMessage) && isLoading == old(isLoading) && pending == old(pending)
    {
      messages := HistoryEntries(fetched);
    }

    /** The history request failed: the error is only logged. */
    method HistoryFail()
      requires Valid()
      ensures Valid()
      ensures unchanged(this)
    {
    }
  }
}

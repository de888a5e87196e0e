/**
  The crawler's extraction of a node from a JSON response body with three
  regular expressions, each modelled as an explicit scanner:

    message:    "message" \s* : \s* " (.*?) "     (DOTALL)
    successors: "successors" \s* : \s* \[ (.*?) ]   (DOTALL)
    strings:    " (.*?) "                          (. stops at a line terminator)

  Matcher.find returns the match that starts leftmost; a lazy group is the
  shortest that lets the rest of the pattern match.
*/
module AsyncSpider {
  import opened Wrappers

  /** A node: its message (null when absent) and its successor paths. */
  datatype Node = Node(message: Option<string>, successors: seq<string>)

  /** The regex class \s: space, tab, newline, vertical tab, form feed, carriage return. */
  predicate IsSpace(c: char)
  {
    c == ' ' || c == '\t' || c == '\n' || c == '\U{000B}' || c == '\U{000C}' || c == '\r'
  }

  /** The characters a regex '.' does not match without DOTALL. */
  predicate IsLineTerminator(c: char)
  {
    c == '\n' || c == '\r' || c == '\U{0085}' || c == '\U{2028}' || c == '\U{2029}'
  }

  predicate AllSpaces(s: string, i: nat, j: nat)
    requires i <= j <= |s|
  {
    forall k :: i <= k < j ==> IsSpace(s[k])
  }

  /** Where a greedy \s* starting at i stops. */
  function SkipSpaces(s: string, i: nat): (j: nat)
    requires i <= |s|
    ensures i <= j <= |s| && AllSpaces(s, i, j)
    ensures j == |s| || !IsSpace(s[j])
    decreases |s| - i
  {
    if i < |s| && IsSpace(s[i]) then SkipSpaces(s, i + 1) else i
  }

  /**
    The end of a lazy group starting at i: the first close character, unless
    the group cannot reach one (a line terminator comes first in single-line
    mode, or there is none).
  */
  function CloseFrom(s: string, i: nat, close: char, singleLine: bool): (e: Option<nat>)
    requires i <= |s|
    ensures e.Some? ==> i <= e.value < |s| && s[e.value] == close
    ensures e.Some? ==> forall k :: i <= k < e.value ==> s[k] != close && !(singleLine && IsLineTerminator(s[k]))
    decreases |s| - i
  {
    if i == |s| then None
    else if s[i] == close then Some(i)
    else if singleLine && IsLineTerminator(s[i]) then None
    else CloseFrom(s, i + 1, close, singleLine)
  }

  /** The end of a JSON string body starting at i: the first quote that no backslash escapes. */
  function StringBodyEnd(s: string, i: nat): (e: Option<nat>)
    requires i <= |s|
    ensures e.Some? ==> i <= e.value < |s| && s[e.value] == '"'
    decreases |s| - i
  {
    if i == |s| then None
    else if s[i] == '"' then Some(i)
    else if s[i] == '\\' then (if i + 1 < |s| then StringBodyEnd(s, i + 2) else None)
    else StringBodyEnd(s, i + 1)
  }

  /** A match: where it starts, where its group lies, and where it ends. */
  datatype Match = Match(start: nat, groupStart: nat, groupEnd: nat, end: nat)

  /**
    The three patterns of the crawler, and the message pattern as evidently
    intended, "message"\s*:\s*"((?:[^"\\]|\\.)*)", whose group runs to the
    first quote that no backslash escapes.
  */
  datatype Pattern = MessageP | SuccessorsP | StringInArrayP | IntendedMessageP

  const MessageKey := "\"message\""
  const SuccessorsKey := "\"successors\""

  /** Where the group starts when the prefix key \s* : \s* open matches at q. */
  function OpenAt(s: string, q: nat, key: string, open: char): (g: Option<nat>)
    requires q <= |s|
    ensures g.Some? ==> q + |key| < g.value <= |s| && s[g.value - 1] == open
  {
    if !(q + |key| <= |s| && s[q..q + |key|] == key) then None
    else
      var c := SkipSpaces(s, q + |key|);
      if !(c < |s| && s[c] == ':') then None
      else
        var o := SkipSpaces(s, c + 1);
        if !(o < |s| && s[o] == open) then None
        else Some(o + 1)
  }

  /** The match from q whose group runs from g to the group end e, if one was found. */
  function Closed(q: nat, g: nat, e: Option<nat>): Option<Match>
  {
    match e
    case None => None
    case Some(e) => Some(Match(q, g, e, e + 1))
  }

  /** The pattern's match starting exactly at q, if there is one. */
  function MatchAt(p: Pattern, s: string, q: nat): (r: Option<Match>)
    requires q <= |s|
    ensures r.Some? ==> r.value.start == q < r.value.groupStart <= r.value.groupEnd < r.value.end == r.value.groupEnd + 1 <= |s|
  {
    match p
    case MessageP =>
      (match OpenAt(s, q, MessageKey, '"')
       case None => None
       case Some(g) => Closed(q, g, CloseFrom(s, g, '"', false)))
    case SuccessorsP =>
      (match OpenAt(s, q, SuccessorsKey, '[')
       case None => None
       case Some(g) => Closed(q, g, CloseFrom(s, g, ']', false)))
    case IntendedMessageP =>
      (match OpenAt(s, q, MessageKey, '"')
       case None => None
       case Some(g) => Closed(q, g, StringBodyEnd(s, g)))
    case StringInArrayP =>
      if !(q < |s| && s[q] == '"') then None
      else Closed(q, q + 1, CloseFrom(s, q + 1, '"', true))
  }

  /**
    The shape of key \s* : \s* open X close at m, for any text X: a reference
    description of what the regex accepts, independent of the scanner.
  */
  ghost predicate KeyedShape(s: string, m: Match, key: string, open: char, close: char)
  {
    && m.start + |key| < m.groupStart <= m.groupEnd < |s| && m.end == m.groupEnd + 1
    && PrefixShape(s, m.start, m.groupStart, key, open)
    && s[m.groupEnd] == close
  }

  /** key \s* : \s* open spans s[q..g]. */
  ghost predicate PrefixShape(s: string, q: nat, g: nat, key: string, open: char)
  {
    && q + |key| < g <= |s|
    && s[q..q + |key|] == key
    && s[g - 1] == open
    && exists c :: q + |key| <= c < g - 1 && s[c] == ':'
         && AllSpaces(s, q + |key|, c) && AllSpaces(s, c + 1, g - 1)
  }

  /** m is a way for the pattern to match s, with any group text the pattern allows. */
  ghost predicate Matches(p: Pattern, s: string, m: Match)
  {
    match p
    case MessageP => KeyedShape(s, m, MessageKey, '"', '"')
    case IntendedMessageP => KeyedShape(s, m, MessageKey, '"', '"')
    case SuccessorsP => KeyedShape(s, m, SuccessorsKey, '[', ']')
    case StringInArrayP =>
      && m.start + 1 == m.groupStart <= m.groupEnd < |s| && m.end == m.groupEnd + 1
      && s[m.start] == '"' && s[m.groupEnd] == '"'
      && forall k :: m.groupStart <= k < m.groupEnd ==> !IsLineTerminator(s[k])
  }

  /** The character that ends the pattern's group. */
  function CloseOf(p: Pattern): char
  {
    match p
    case MessageP => '"'
    case IntendedMessageP => '"'
    case SuccessorsP => ']'
    case StringInArrayP => '"'
  }

  /** The text a match's group captured. */
  function Group(s: string, m: Match): string
    requires m.groupStart <= m.groupEnd <= |s|
  {
    s[m.groupStart..m.groupEnd]
  }

  lemma SkipSpacesTo(s: string, i: nat, c: nat)
    requires i <= c < |s| && AllSpaces(s, i, c) && !IsSpace(s[c])
    ensures SkipSpaces(s, i) == c
    decreases c - i
  {
    if i < c {
      SkipSpacesTo(s, i + 1, c);
    }
  }

  lemma CloseFromReaches(s: string, i: nat, e: nat, close: char, singleLine: bool)
    requires i <= e < |s| && s[e] == close
    requires forall k :: i <= k < e ==> !(singleLine && IsLineTerminator(s[k]))
    ensures CloseFrom(s, i, close, singleLine).Some? && CloseFrom(s, i, close, singleLine).value <= e
    decreases e - i
  {
    if s[i] != close {
      CloseFromReaches(s, i + 1, e, close, singleLine);
    }
  }

  /**
    The scanner finds exactly what the pattern accepts, with the shortest
    group: what MatchAt returns is a match whose group holds no close
    character (and no line terminator for the single-line pattern).
  */
  lemma MatchAtSound(p: Pattern, s: string, q: nat)
    requires q <= |s| && MatchAt(p, s, q).Some?
    ensures var m := MatchAt(p, s, q).value;
      && m.start == q && Matches(p, s, m)
      && (p != IntendedMessageP ==> CloseOf(p) !in Group(s, m))
      && (p == StringInArrayP ==> forall k :: m.groupStart <= k < m.groupEnd ==> !IsLineTerminator(s[k]))
  {
    match p
    case MessageP => OpenAtSound(s, q, MessageKey, '"');
    case SuccessorsP => OpenAtSound(s, q, SuccessorsKey, '[');
    case IntendedMessageP => OpenAtSound(s, q, MessageKey, '"');
    case StringInArrayP =>
  }

  lemma OpenAtSound(s: string, q: nat, key: string, open: char)
    requires q <= |s| && OpenAt(s, q, key, open).Some?
    ensures PrefixShape(s, q, OpenAt(s, q, key, open).value, key, open)
  {
    var c := SkipSpaces(s, q + |key|);
    assert q + |key| <= c < OpenAt(s, q, key, open).value - 1 && s[c] == ':';
  }

  lemma OpenAtComplete(s: string, q: nat, g: nat, key: string, open: char)
    requires PrefixShape(s, q, g, key, open) && !IsSpace(open)
    ensures OpenAt(s, q, key, open) == Some(g)
  {
    var c :| q + |key| <= c < g - 1 && s[c] == ':'
       && AllSpaces(s, q + |key|, c) && AllSpaces(s, c + 1, g - 1);
    SkipSpacesTo(s, q + |key|, c);
    SkipSpacesTo(s, c + 1, g - 1);
  }

  /**
    ... and whenever the pattern can match at q, with any group, MatchAt
    finds a match there with the same group start and a group no longer.
  */
  lemma MatchAtComplete(p: Pattern, s: string, m: Match)
    requires p != IntendedMessageP && Matches(p, s, m)
    ensures MatchAt(p, s, m.start).Some?
    ensures MatchAt(p, s, m.start).value.groupStart == m.groupStart
    ensures MatchAt(p, s, m.start).value.groupEnd <= m.groupEnd
  {
    match p
    case StringInArrayP =>
      CloseFromReaches(s, m.groupStart, m.groupEnd, '"', true);
    case MessageP =>
      OpenAtComplete(s, m.start, m.groupStart, MessageKey, '"');
      CloseFromReaches(s, m.groupStart, m.groupEnd, '"', false);
    case SuccessorsP =>
      OpenAtComplete(s, m.start, m.groupStart, SuccessorsKey, '[');
      CloseFromReaches(s, m.groupStart, m.groupEnd, ']', false);
  }

  /** Matcher.find from position from: the match that starts leftmost. */
  function FirstMatchFrom(p: Pattern, s: string, from: nat): (r: Option<Match>)
    requires from <= |s|
    ensures r.Some? ==> from <= r.value.start <= |s| && MatchAt(p, s, r.value.start) == r
    ensures forall q :: from <= q <= |s| && (r.None? || q < r.value.start) ==> MatchAt(p, s, q).None?
    decreases |s| - from
  {
    if MatchAt(p, s, from).Some? then MatchAt(p, s, from)
    else if from == |s| then None
    else FirstMatchFrom(p, s, from + 1)
  }

  /** The successive finds of the string pattern in arr, starting at from, each find resuming where the previous match ended. */
  function StringMatches(arr: string, from: nat): (ms: seq<Match>)
    requires from <= |arr|
    ensures forall i :: 0 <= i < |ms| ==> from <= ms[i].start < ms[i].end <= |arr| && MatchAt(StringInArrayP, arr, ms[i].start) == Some(ms[i])
    decreases |arr| - from
  {
    match FirstMatchFrom(StringInArrayP, arr, from)
    case None => []
    case Some(m) => [m] + StringMatches(arr, m.end)
  }

  /**
    The finds chain like Matcher.find(): the first is the leftmost match from
    `from`, each next one is the leftmost match from the previous end, and
    nothing matches after the last.
  */
  lemma {:induction false} StringMatchesChain(arr: string, from: nat)
    requires from <= |arr|
    ensures var ms := StringMatches(arr, from);
      && (|ms| > 0 ==> FirstMatchFrom(StringInArrayP, arr, from) == Some(ms[0]))
      && (forall i :: 0 <= i < |ms| - 1 ==> FirstMatchFrom(StringInArrayP, arr, ms[i].end) == Some(ms[i + 1]))
      && FirstMatchFrom(StringInArrayP, arr, if ms == [] then from else ms[|ms| - 1].end).None?
    decreases |arr| - from
  {
    match FirstMatchFrom(StringInArrayP, arr, from)
    case None =>
    case Some(m) =>
      StringMatchesChain(arr, m.end);
      var rest := StringMatches(arr, m.end);
      var ms := StringMatches(arr, from);
      assert ms == [m] + rest;
      forall i | 0 <= i < |ms| - 1
        ensures FirstMatchFrom(StringInArrayP, arr, ms[i].end) == Some(ms[i + 1])
      {
        assert ms[i + 1] == rest[i];
        if i > 0 {
          assert ms[i] == rest[i - 1];
        }
      }
      if rest != [] {
        assert ms[|ms| - 1] == rest[|rest| - 1];
      }
  }

  /** The unescaped texts of those finds, as the loop appends them. */
  function StringsFrom(arr: string, from: nat): seq<string>
    requires from <= |arr|
    decreases |arr| - from
  {
    match FirstMatchFrom(StringInArrayP, arr, from)
    case None => []
    case Some(m) => [Unescape(Group(arr, m))] + StringsFrom(arr, m.end)
  }

  /** String.replace(pat, rep): the occurrences of pat, found left to right without overlap, replaced by rep. */
  function ReplaceAll(s: string, pat: string, rep: string): string
    requires |pat| > 0
    decreases |s|
  {
    if |s| < |pat| then s
    else if s[..|pat|] == pat then rep + ReplaceAll(s[|pat|..], pat, rep)
    else [s[0]] + ReplaceAll(s[1..], pat, rep)
  }

  /** unescape: \" becomes ", then \\ becomes \. */
  function Unescape(s: string): string
  {
    ReplaceAll(ReplaceAll(s, "\\\"", "\""), "\\\\", "\\")
  }

  /** The message of a body: the unescaped group of the first match, or null. */
  function MessageOf(json: string): Option<string>
  {
    match FirstMatchFrom(MessageP, json, 0)
    case None => None
    case Some(m) => Some(Unescape(Group(json, m)))
  }

  /** The successors of a body: the strings in the text of the first array match. */
  function SuccessorsOf(json: string): seq<string>
  {
    match FirstMatchFrom(SuccessorsP, json, 0)
    case None => []
    case Some(m) => StringsFrom(Group(json, m), 0)
  }

  /** parseNode as a function of the body. */
  function NodeOf(json: string): Node
  {
    Node(MessageOf(json), SuccessorsOf(json))
  }

  /** parseNode: one find for the message, one for the array, then the find loop over the array text. */
  method ParseNode(json: string) returns (node: Node)
    ensures node == NodeOf(json)
  {
    var message: Option<string> := None;
    var m := FirstMatchFrom(MessageP, json, 0);
    if m.Some? {
      message := Some(Unescape(json[m.value.groupStart..m.value.groupEnd]));
    }
    var successors: seq<string> := [];
    var s := FirstMatchFrom(SuccessorsP, json, 0);
    if s.Some? {
      successors := CollectStrings(json[s.value.groupStart..s.value.groupEnd]);
    }
    node := Node(message, successors);
  }

  /** parseNode's loop: while each.find() succeeds, append the unescaped group. */
  method CollectStrings(arr: string) returns (successors: seq<string>)
    ensures successors == StringsFrom(arr, 0)
  {
    successors := [];
    var from := 0;
    var each := FirstMatchFrom(StringInArrayP, arr, from);
    while each.Some?
      invariant from <= |arr| && each == FirstMatchFrom(StringInArrayP, arr, from)
      invariant successors + StringsFrom(arr, from) == StringsFrom(arr, 0)
      decreases |arr| - from
    {
      successors := successors + [Unescape(arr[each.value.groupStart..each.value.groupEnd])];
      from := each.value.end;
      each := FirstMatchFrom(StringInArrayP, arr, from);
    }
  }

  lemma {:induction false} ReplaceAllWithoutChar(s: string, pat: string, rep: string, c: char)
    requires |pat| > 0 && c in pat && c !in s
    ensures ReplaceAll(s, pat, rep) == s
    decreases |s|
  {
    if |s| >= |pat| {
      var i :| 0 <= i < |pat| && pat[i] == c;
      assert s[i] != c;
      assert s[..|pat|] != pat;
      ReplaceAllWithoutChar(s[1..], pat, rep, c);
      assert s == [s[0]] + s[1..];
    }
  }

  lemma {:induction false} ReplaceAllNotLonger(s: string, pat: string, rep: string)
    requires |pat| > 0 && |rep| <= |pat|
    ensures |ReplaceAll(s, pat, rep)| <= |s|
    decreases |s|
  {
    if |s| >= |pat| {
      if s[..|pat|] == pat {
        ReplaceAllNotLonger(s[|pat|..], pat, rep);
      } else {
        ReplaceAllNotLonger(s[1..], pat, rep);
      }
    }
  }

  lemma {:induction false} ReplaceAllKeepsCharOut(s: string, pat: string, rep: string, c: char)
    requires |pat| > 0 && c !in s && c !in rep
    ensures c !in ReplaceAll(s, pat, rep)
    decreases |s|
  {
    if |s| >= |pat| {
      if s[..|pat|] == pat {
        ReplaceAllKeepsCharOut(s[|pat|..], pat, rep, c);
      } else {
        ReplaceAllKeepsCharOut(s[1..], pat, rep, c);
      }
    }
  }

  /** unescape leaves a string without backslashes as it is. */
  lemma UnescapeWithoutBackslash(t: string)
    requires '\\' !in t
    ensures Unescape(t) == t
  {
    ReplaceAllWithoutChar(t, "\\\"", "\"", '\\');
    ReplaceAllWithoutChar(t, "\\\\", "\\", '\\');
  }

  /** unescape never lengthens a string. */
  lemma UnescapeNotLonger(t: string)
    ensures |Unescape(t)| <= |t|
  {
    ReplaceAllNotLonger(t, "\\\"", "\"");
    ReplaceAllNotLonger(ReplaceAll(t, "\\\"", "\""), "\\\\", "\\");
  }

  /** The message is null exactly when the message pattern matches nowhere in the body. */
  lemma MessageAbsentIffNoMatch(json: string)
    ensures MessageOf(json).None? <==> forall m :: !Matches(MessageP, json, m)
  {
    var r := FirstMatchFrom(MessageP, json, 0);
    if r.Some? {
      MatchAtSound(MessageP, json, r.value.start);
    } else {
      forall m | Matches(MessageP, json, m) ensures false {
        MatchAtComplete(MessageP, json, m);
      }
    }
  }

  /**
    A message comes from the leftmost match, with the shortest group there:
    the raw text up to the first quote after the opening one.
  */
  lemma MessageFromLeftmostMatch(json: string)
    requires MessageOf(json).Some?
    ensures var m := FirstMatchFrom(MessageP, json, 0).value;
      && Matches(MessageP, json, m)
      && MessageOf(json) == Some(Unescape(Group(json, m)))
      && '"' !in Group(json, m)
      && (forall m' :: Matches(MessageP, json, m') ==> m.start <= m'.start)
      && (forall m' :: Matches(MessageP, json, m') && m'.start == m.start ==> m.groupEnd <= m'.groupEnd)
  {
    var m := FirstMatchFrom(MessageP, json, 0).value;
    MatchAtSound(MessageP, json, m.start);
    forall m' | Matches(MessageP, json, m') ensures m.start <= m'.start {
      MatchAtComplete(MessageP, json, m');
    }
    forall m' | Matches(MessageP, json, m') && m'.start == m.start ensures m.groupEnd <= m'.groupEnd {
      MatchAtComplete(MessageP, json, m');
    }
  }

  /** With no array match the successor list is empty. */
  lemma SuccessorsAbsentWithoutArray(json: string)
    requires forall m :: !Matches(SuccessorsP, json, m)
    ensures SuccessorsOf(json) == []
  {
    var r := FirstMatchFrom(SuccessorsP, json, 0);
    if r.Some? {
      MatchAtSound(SuccessorsP, json, r.value.start);
    }
  }

  lemma {:induction false} StringsFromMatches(arr: string, from: nat)
    requires from <= |arr|
    ensures var ms := StringMatches(arr, from);
      && |StringsFrom(arr, from)| == |ms|
      && forall i :: 0 <= i < |ms| ==> StringsFrom(arr, from)[i] == Unescape(Group(arr, ms[i]))
    decreases |arr| - from
  {
    match FirstMatchFrom(StringInArrayP, arr, from)
    case None =>
    case Some(m) =>
      StringsFromMatches(arr, m.end);
      var ms', ss' := StringMatches(arr, m.end), StringsFrom(arr, m.end);
      assert StringMatches(arr, from) == [m] + ms';
      assert StringsFrom(arr, from) == [Unescape(Group(arr, m))] + ss';
  }

  /** The array text is the group of a match of key \s* : \s* [ X ], and stops at the first ']'. */
  lemma SuccessorsArrayShape(json: string)
    requires FirstMatchFrom(SuccessorsP, json, 0).Some?
    ensures var a := FirstMatchFrom(SuccessorsP, json, 0).value;
      Matches(SuccessorsP, json, a) && ']' !in Group(json, a)
  {
    var a := FirstMatchFrom(SuccessorsP, json, 0).value;
    MatchAtSound(SuccessorsP, json, a.start);
  }

  /** The successors are the unescaped groups of the successive string finds in the array text, in order. */
  lemma SuccessorsAreUnescapedFinds(json: string)
    requires FirstMatchFrom(SuccessorsP, json, 0).Some?
    ensures var arr := Group(json, FirstMatchFrom(SuccessorsP, json, 0).value);
      var ms := StringMatches(arr, 0);
      && |SuccessorsOf(json)| == |ms|
      && forall i :: 0 <= i < |ms| ==> SuccessorsOf(json)[i] == Unescape(Group(arr, ms[i]))
  {
    var arr := Group(json, FirstMatchFrom(SuccessorsP, json, 0).value);
    StringsFromMatches(arr, 0);
  }

  /**
    Each find in the array text is a quoted string on one line that holds no
    quote, and the finds follow each other without overlap.
  */
  lemma ArrayFindsAreStrings(arr: string)
    ensures var ms := StringMatches(arr, 0);
      && (forall i :: 0 <= i < |ms| ==> Matches(StringInArrayP, arr, ms[i]) && '"' !in Group(arr, ms[i]))
      && (forall i :: 0 <= i < |ms| - 1 ==> ms[i].end <= ms[i + 1].start)
  {
    var ms := StringMatches(arr, 0);
    StringMatchesChain(arr, 0);
    forall i | 0 <= i < |ms| ensures Matches(StringInArrayP, arr, ms[i]) && '"' !in Group(arr, ms[i]) {
      MatchAtSound(StringInArrayP, arr, ms[i].start);
    }
  }

  /**
    As written, the message group ends at the first quote, so it never holds
    one, and unescape cannot put one back: the message never contains a quote.
  */
  lemma MessageNeverHasQuote(json: string)
    requires MessageOf(json).Some?
    ensures '"' !in MessageOf(json).value
  {
    var m := FirstMatchFrom(MessageP, json, 0).value;
    MatchAtSound(MessageP, json, m.start);
    var g := Group(json, m);
    ReplaceAllWithoutChar(g, "\\\"", "\"", '"');
    ReplaceAllKeepsCharOut(g, "\\\\", "\\", '"');
  }

  /** A message holding an escaped quote is cut just before that quote. */
  lemma EscapedQuoteCutsMessage()
    ensures MessageOf(EscapedQuoteBody) == Some("a\\")
  {
    EscapedQuoteFirstMatch();
    UnescapeBackslashA();
  }

  /** The body {"message":"a\"b"}: a message whose text holds an escaped quote. */
  const EscapedQuoteBody := "{\"message\":\"a\\\"b\"}"

  /** In that body the first match starts at the key and its group ends at the escaped quote. */
  lemma EscapedQuoteFirstMatch()
    ensures FirstMatchFrom(MessageP, EscapedQuoteBody, 0) == Some(Match(1, 12, 14, 15))
    ensures Group(EscapedQuoteBody, Match(1, 12, 14, 15)) == "a\\"
  {
    EscapedQuoteNoMatchAtBrace();
    EscapedQuoteMatchAtKey();
  }

  lemma EscapedQuoteNoMatchAtBrace()
    ensures MatchAt(MessageP, EscapedQuoteBody, 0).None?
  {
    assert EscapedQuoteBody[0..9][0] == '{';
  }

  lemma EscapedQuoteMatchAtKey()
    ensures MatchAt(MessageP, EscapedQuoteBody, 1) == Some(Match(1, 12, 14, 15))
  {
    var json := EscapedQuoteBody;
    assert json[1..10] == MessageKey;
    assert SkipSpaces(json, 10) == 10;
    assert SkipSpaces(json, 11) == 11;
    assert CloseFrom(json, 12, '"', false) == Some(14);
  }

  /** The two characters a\ unescape to themselves. */
  lemma UnescapeBackslashA()
    ensures Unescape("a\\") == "a\\"
  {
    var g := "a\\";
    ReplaceAllWithoutChar(g, "\\\"", "\"", '"');
    assert ReplaceAll(g, "\\\\", "\\") == [g[0]] + ReplaceAll(g[1..], "\\\\", "\\");
  }

  /** JSON string escaping of quote and backslash, as a server writes a message. */
  function Escape(t: string): (e: string)
    ensures |e| >= |t|
  {
    if t == [] then []
    else (if t[0] == '\\' then "\\\\" else if t[0] == '"' then "\\\"" else [t[0]]) + Escape(t[1..])
  }

  /** t with every backslash doubled: what remains of Escape(t) once each \" is replaced. */
  function DoubleBackslashes(t: string): string
  {
    if t == [] then []
    else (if t[0] == '\\' then "\\\\" else [t[0]]) + DoubleBackslashes(t[1..])
  }

  /** A text that starts with the pattern: the pattern is replaced and the scan resumes after it. */
  lemma ReplaceAllAtPattern(pat: string, rep: string, e: string)
    requires |pat| > 0
    ensures ReplaceAll(pat + e, pat, rep) == rep + ReplaceAll(e, pat, rep)
  {
    assert (pat + e)[..|pat|] == pat && (pat + e)[|pat|..] == e;
  }

  /** A text whose first two characters are not the two-character pattern: its first character is kept. */
  lemma ReplaceAllKeepsHead(c: char, e: string, pat: string, rep: string)
    requires |pat| == 2 && (e == [] || pat[0] != c || pat[1] != e[0])
    ensures ReplaceAll([c] + e, pat, rep) == [c] + ReplaceAll(e, pat, rep)
  {
    var s := [c] + e;
    if |s| >= 2 {
      assert s[..2][0] == c && s[..2][1] == e[0];
    }
    assert s[1..] == e;
  }

  /** Two leading characters that start no occurrence of the two-character pattern are both kept. */
  lemma ReplaceAllKeepsTwoHeads(c: char, d: char, e: string, pat: string, rep: string)
    requires |pat| == 2 && (pat[0] != c || pat[1] != d) && (e == [] || pat[0] != d || pat[1] != e[0])
    ensures ReplaceAll([c, d] + e, pat, rep) == [c, d] + ReplaceAll(e, pat, rep)
  {
    var s1 := [d] + e;
    ReplaceAllKeepsHead(d, e, pat, rep);
    ReplaceAllKeepsHead(c, s1, pat, rep);
    assert [c, d] + e == [c] + s1;
  }

  lemma {:induction false} ReplaceEscapedQuotes(t: string)
    ensures ReplaceAll(Escape(t), "\\\"", "\"") == DoubleBackslashes(t)
  {
    if t != [] {
      var e := Escape(t[1..]);
      ReplaceEscapedQuotes(t[1..]);
      if t[0] == '\\' {
        assert Escape(t) == ['\\', '\\'] + e;
        ReplaceAllKeepsTwoHeads('\\', '\\', e, "\\\"", "\"");
      } else if t[0] == '"' {
        assert Escape(t) == "\\\"" + e;
        ReplaceAllAtPattern("\\\"", "\"", e);
      } else {
        assert Escape(t) == [t[0]] + e;
        ReplaceAllKeepsHead(t[0], e, "\\\"", "\"");
      }
    }
  }

  lemma {:induction false} HalveBackslashes(t: string)
    ensures ReplaceAll(DoubleBackslashes(t), "\\\\", "\\") == t
  {
    if t != [] {
      var d := DoubleBackslashes(t[1..]);
      HalveBackslashes(t[1..]);
      if t[0] == '\\' {
        ReplaceAllAtPattern("\\\\", "\\", d);
      } else {
        ReplaceAllKeepsHead(t[0], d, "\\\\", "\\");
      }
      assert t == [t[0]] + t[1..];
    }
  }

  /** unescape undoes JSON escaping of quotes and backslashes. */
  lemma UnescapeEscape(t: string)
    ensures Unescape(Escape(t)) == t
  {
    ReplaceEscapedQuotes(t);
    HalveBackslashes(t);
  }

  lemma {:induction false} StringBodyEndOfEscape(s: string, i: nat, t: string)
    requires i + |Escape(t)| < |s| && s[i + |Escape(t)|] == '"'
    requires forall k :: 0 <= k < |Escape(t)| ==> s[i + k] == Escape(t)[k]
    ensures StringBodyEnd(s, i) == Some(i + |Escape(t)|)
    decreases |t|
  {
    if t != [] {
      var e := Escape(t[1..]);
      var h := if t[0] == '\\' then "\\\\" else if t[0] == '"' then "\\\"" else [t[0]];
      assert Escape(t) == h + e;
      assert s[i] == Escape(t)[0] == h[0];
      if |h| == 2 {
        assert StringBodyEnd(s, i) == StringBodyEnd(s, i + 2);
      } else {
        assert StringBodyEnd(s, i) == StringBodyEnd(s, i + 1);
      }
      forall k | 0 <= k < |e|
        ensures s[i + |h| + k] == e[k]
      {
        assert Escape(t)[|h| + k] == e[k];
      }
      StringBodyEndOfEscape(s, i + |h|, t[1..]);
    }
  }

  /** The message as the crawler evidently means it: the first match of the intended pattern, unescaped. */
  function IntendedMessageOf(json: string): Option<string>
  {
    match FirstMatchFrom(IntendedMessageP, json, 0)
    case None => None
    case Some(m) => Some(Unescape(Group(json, m)))
  }

  /** The key, colon and opening quote at the very start of json put the group at 11. */
  lemma OpenAtMessageStart(json: string)
    requires |json| > 11 && json[..9] == MessageKey && json[9] == ':' && json[10] == '"'
    ensures OpenAt(json, 0, MessageKey, '"') == Some(11)
  {
    assert SkipSpaces(json, 9) == 9;
    assert SkipSpaces(json, 10) == 10;
  }

  /** A body that opens with "message":"e" and goes on with rest, as a server writes it for escaped text e. */
  function MessageBody(e: string, rest: string): string
  {
    MessageKey + ":\"" + e + "\"" + rest
  }

  /** Where the parts of a body "message":"e"rest lie. */
  lemma MessageBodyLayout(e: string, rest: string)
    ensures var json := MessageBody(e, rest);
      && |json| == 12 + |e| + |rest|
      && json[..9] == MessageKey && json[9] == ':' && json[10] == '"'
      && json[11..11 + |e|] == e && json[11 + |e|] == '"'
  {
    var json := MessageKey + ":\"" + e + "\"" + rest;
    assert json == (MessageKey + ":\"") + (e + "\"" + rest);
  }

  /** A body that opens with the key and holds Escape(t) as its first string yields t. */
  lemma IntendedMessageOfBody(json: string, t: string)
    requires |json| > 11 + |Escape(t)| && json[..9] == MessageKey && json[9] == ':' && json[10] == '"'
    requires json[11..11 + |Escape(t)|] == Escape(t) && json[11 + |Escape(t)|] == '"'
    ensures IntendedMessageOf(json) == Some(t)
  {
    var e := Escape(t);
    OpenAtMessageStart(json);
    forall k | 0 <= k < |e|
      ensures json[11 + k] == e[k]
    {
      assert json[11..11 + |e|][k] == e[k];
    }
    StringBodyEndOfEscape(json, 11, t);
    var m := Match(0, 11, 11 + |e|, 12 + |e|);
    assert MatchAt(IntendedMessageP, json, 0) == Some(m);
    assert FirstMatchFrom(IntendedMessageP, json, 0) == Some(m);
    UnescapeEscape(t);
  }

  /** With the intended pattern any message text, quotes included, comes back whole. */
  lemma IntendedMessageRoundTrip(t: string, rest: string)
    ensures IntendedMessageOf(MessageBody(Escape(t), rest)) == Some(t)
  {
    var e := Escape(t);
    var json := MessageBody(e, rest);
    MessageBodyLayout(e, rest);
    IntendedMessageOfBody(json, t);
  }

  /** On the same bodies the pattern as written loses every message that holds a quote. */
  lemma WrittenMessageLosesQuotes(t: string, rest: string)
    requires '"' in t
    ensures MessageOf(MessageBody(Escape(t), rest)) != Some(t)
  {
    var json := MessageBody(Escape(t), rest);
    if MessageOf(json).Some? {
      MessageNeverHasQuote(json);
    }
  }

  /** A body that opens with {"successors":[ then holds the array text arr, its closing bracket and rest. */
  function SuccessorsBody(arr: string, rest: string): string
  {
    "{" + SuccessorsKey + ":[" + arr + "]" + rest
  }

  /** Where the parts of a body {"successors":[arr]rest lie. */
  lemma SuccessorsBodyLayout(arr: string, rest: string)
    ensures var json := SuccessorsBody(arr, rest);
      && |json| == 16 + |arr| + |rest|
      && json[0] == '{' && json[1..13] == SuccessorsKey && json[13] == ':' && json[14] == '['
      && json[15..15 + |arr|] == arr && json[15 + |arr|] == ']'
  {
    var json := "{" + SuccessorsKey + ":[" + arr + "]" + rest;
    assert json == "{" + (SuccessorsKey + (":[" + (arr + ("]" + rest))));
  }

  /** As written, when the array text holds no ']' the successors are exactly the strings the string pattern finds in it. */
  lemma SuccessorsOfBody(arr: string, rest: string)
    requires ']' !in arr
    ensures SuccessorsOf(SuccessorsBody(arr, rest)) == StringsFrom(arr, 0)
  {
    var json := SuccessorsBody(arr, rest);
    SuccessorsBodyLayout(arr, rest);
    var e := 15 + |arr|;
    assert MatchAt(SuccessorsP, json, 0).None? by {
      assert json[0..12][0] == json[0];
    }
    assert OpenAt(json, 1, SuccessorsKey, '[') == Some(15) by {
      assert SkipSpaces(json, 13) == 13;
      assert SkipSpaces(json, 14) == 14;
    }
    forall k | 15 <= k < e
      ensures json[k] != ']'
    {
      assert json[15..e][k - 15] == arr[k - 15];
    }
    CloseFromReaches(json, 15, e, ']', false);
    assert CloseFrom(json, 15, ']', false) == Some(e);
    var m := Match(1, 15, e, e + 1);
    assert FirstMatchFrom(SuccessorsP, json, 0) == Some(m);
    assert Group(json, m) == arr;
  }

  /** The body {"successors":["a\"b"]}: one successor whose text holds an escaped quote. */
  const EscapedQuoteArrayBody := SuccessorsBody(EscapedQuoteArray, "}")

  /** The array text of that body: "a\"b". */
  const EscapedQuoteArray := "\"a\\\"b\""

  /** As written, a successor holding an escaped quote is cut just before that quote, and the rest of it is dropped. */
  lemma EscapedQuoteCutsSuccessor()
    ensures SuccessorsOf(EscapedQuoteArrayBody) == ["a\\"]
  {
    assert ']' !in EscapedQuoteArray;
    SuccessorsOfBody(EscapedQuoteArray, "}");
    EscapedQuoteArrayStrings();
  }

  lemma EscapedQuoteArrayStrings()
    ensures StringsFrom(EscapedQuoteArray, 0) == ["a\\"]
  {
    var arr := EscapedQuoteArray;
    assert CloseFrom(arr, 1, '"', true) == Some(3);
    assert FirstMatchFrom(StringInArrayP, arr, 0) == Some(Match(0, 1, 3, 4));
    assert CloseFrom(arr, 6, '"', true).None?;
    assert FirstMatchFrom(StringInArrayP, arr, 4).None?;
    assert Group(arr, Match(0, 1, 3, 4)) == "a\\";
    UnescapeBackslashA();
  }

  /** A successor written as the JSON string "e", followed by rest. */
  function QuotedBody(e: string, rest: string): string
  {
    "\"" + e + "\"" + rest
  }

  /** Where the parts of a quoted body "e"rest lie. */
  lemma QuotedBodyLayout(e: string, rest: string)
    ensures var s := QuotedBody(e, rest);
      && |s| == 2 + |e| + |rest|
      && s[0] == '"' && s[1..1 + |e|] == e && s[1 + |e|] == '"'
  {
    var s := "\"" + e + "\"" + rest;
    assert s == "\"" + (e + "\"" + rest);
  }

  /**
    The successor string pattern as evidently intended, "((?:[^"\\]|\\.)*)":
    its group runs to the first quote that no backslash escapes.
  */
  function IntendedStringAt(s: string, q: nat): (r: Option<Match>)
    requires q <= |s|
    ensures r.Some? ==> r.value.start == q && r.value.groupStart == q + 1 <= r.value.groupEnd
    ensures r.Some? ==> r.value.end == r.value.groupEnd + 1 <= |s| && s[r.value.groupEnd] == '"'
  {
    if !(q < |s| && s[q] == '"') then None
    else Closed(q, q + 1, StringBodyEnd(s, q + 1))
  }

  /** With the intended string pattern any successor text, quotes included, comes back whole. */
  lemma IntendedStringRoundTrip(t: string, rest: string)
    ensures var s := QuotedBody(Escape(t), rest);
      && IntendedStringAt(s, 0) == Some(Match(0, 1, 1 + |Escape(t)|, 2 + |Escape(t)|))
      && Unescape(Group(s, IntendedStringAt(s, 0).value)) == t
  {
    var e := Escape(t);
    var s := QuotedBody(e, rest);
    QuotedBodyLayout(e, rest);
    forall k | 0 <= k < |e|
      ensures s[1 + k] == e[k]
    {
      assert s[1..1 + |e|][k] == e[k];
    }
    StringBodyEndOfEscape(s, 1, t);
    assert Group(s, Match(0, 1, 1 + |e|, 2 + |e|)) == e;
    UnescapeEscape(t);
  }

  /** On the same array texts the string pattern as written never gives back a successor that holds a quote. */
  lemma WrittenSuccessorLosesQuotes(t: string, rest: string)
    requires '"' in t
    ensures var ss := StringsFrom(QuotedBody(Escape(t), rest), 0);
      ss == [] || ss[0] != t
  {
    var arr := QuotedBody(Escape(t), rest);
    StringsFromMatches(arr, 0);
    ArrayFindsAreStrings(arr);
    var ms := StringMatches(arr, 0);
    if ms != [] {
      var g := Group(arr, ms[0]);
      ReplaceAllWithoutChar(g, "\\\"", "\"", '"');
      ReplaceAllKeepsCharOut(g, "\\\\", "\\", '"');
    }
  }

  /** The body {"successors":["a]b"]}: one successor whose text holds a closing bracket. */
  const BracketInSuccessorBody := SuccessorsBody("\"a", "b\"]}")

  /** As written, a ']' inside a successor string ends the array text, and that body has no successors at all. */
  lemma BracketInSuccessorCutsArray()
    ensures SuccessorsOf(BracketInSuccessorBody) == []
  {
    var arr := "\"a";
    assert ']' !in arr;
    SuccessorsOfBody(arr, "b\"]}");
    assert CloseFrom(arr, 1, '"', true).None?;
    assert FirstMatchFrom(StringInArrayP, arr, 0).None?;
  }
}

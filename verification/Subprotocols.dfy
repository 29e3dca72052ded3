/**
 Subprotocol negotiation (src/subprotocol.rs; sections 1.9 and 11.3.4 of RFC 6455).

 Which characters are alphanumeric and which are white space is Unicode's business. The results
 hold for every classification that keeps the two apart and gives comma, hyphen, underscore and
 space their usual places.
 */
module Subprotocols {
  import opened Wrappers

  datatype CharTable = CharTable(alphanumeric: char -> bool, white: char -> bool) {
    ghost predicate Valid() {
      && (forall c :: white(c) ==> !alphanumeric(c))
      && !alphanumeric(',') && !white(',')
      && !white('-') && !white('_')
      && white(' ')
    }

    predicate NameChar(c: char) {
      alphanumeric(c) || c == '-' || c == '_'
    }

    /** `validate_protocol`. */
    predicate ValidName(name: string) {
      name != "" && forall i :: 0 <= i < |name| ==> NameChar(name[i])
    }
  }

  datatype Error = InvalidSubprotocol(name: string) | NegotiationFailed(name: string)

  // ---------------------------------------------------------------- splitting and trimming

  /** A character in front of a text already split. */
  function Prepend(c: char, pieces: seq<string>, sep: char): (r: seq<string>)
    requires pieces != []
    ensures r != []
  {
    if c == sep then [""] + pieces else [[c] + pieces[0]] + pieces[1..]
  }

  /** The pieces between the separators, empty ones included. */
  function Split(s: string, sep: char): (pieces: seq<string>)
    ensures pieces != []
  {
    if s == "" then [""] else Prepend(s[0], Split(s[1..], sep), sep)
  }

  lemma {:induction false} PiecesHaveNoSeparator(s: string, sep: char)
    ensures forall i, k :: 0 <= i < |Split(s, sep)| && 0 <= k < |Split(s, sep)[i]| ==> Split(s, sep)[i][k] != sep
  {
    if s != "" {
      PiecesHaveNoSeparator(s[1..], sep);
    }
  }

  function TrimStart(t: CharTable, s: string): string {
    if s == "" || !t.white(s[0]) then s else TrimStart(t, s[1..])
  }

  function TrimEnd(t: CharTable, s: string): string {
    if s == "" || !t.white(s[|s| - 1]) then s else TrimEnd(t, s[..|s| - 1])
  }

  function Trim(t: CharTable, s: string): string {
    TrimEnd(t, TrimStart(t, s))
  }

  function Join(names: seq<string>, glue: string): string {
    if names == [] then ""
    else if |names| == 1 then names[0]
    else names[0] + glue + Join(names[1..], glue)
  }

  /** What one piece of a header contributes. */
  function NameIn(t: CharTable, piece: string): seq<string> {
    if t.ValidName(Trim(t, piece)) then [Trim(t, piece)] else []
  }

  function NamesIn(t: CharTable, pieces: seq<string>): seq<string> {
    if pieces == [] then [] else NameIn(t, pieces[0]) + NamesIn(t, pieces[1..])
  }

  /** `parse_header` as a function of the text. */
  function Parse(t: CharTable, header: string): seq<string> {
    NamesIn(t, Split(header, ','))
  }

  /** `to_header_value`. */
  function Print(names: seq<string>): string {
    Join(names, ", ")
  }

  ghost predicate AllValid(t: CharTable, names: seq<string>) {
    forall i :: 0 <= i < |names| ==> t.ValidName(names[i])
  }

  // ---------------------------------------------------------------- the header round trip

  lemma PrependAppend(c: char, a: seq<string>, b: seq<string>, sep: char)
    requires a != []
    ensures Prepend(c, a + b, sep) == Prepend(c, a, sep) + b
  {
    assert (a + b)[1..] == a[1..] + b;
  }

  lemma {:induction false} SplitAtSeparator(a: string, b: string, sep: char)
    ensures Split(a + [sep] + b, sep) == Split(a, sep) + Split(b, sep)
  {
    if a == "" {
      assert (a + [sep] + b)[1..] == b;
    } else {
      assert (a + [sep] + b)[1..] == a[1..] + [sep] + b;
      SplitAtSeparator(a[1..], b, sep);
      PrependAppend(a[0], Split(a[1..], sep), Split(b, sep), sep);
    }
  }

  lemma {:induction false} SplitWithoutSeparator(a: string, sep: char)
    requires forall i :: 0 <= i < |a| ==> a[i] != sep
    ensures Split(a, sep) == [a]
  {
    if a != "" {
      SplitWithoutSeparator(a[1..], sep);
      assert [a[0]] + a[1..] == a;
    }
  }

  lemma NamesInCons(t: CharTable, piece: string, rest: seq<string>)
    ensures NamesIn(t, [piece] + rest) == NameIn(t, piece) + NamesIn(t, rest)
  {
    assert ([piece] + rest)[1..] == rest;
  }

  lemma {:induction false} NamesInAppend(t: CharTable, a: seq<string>, b: seq<string>)
    ensures NamesIn(t, a + b) == NamesIn(t, a) + NamesIn(t, b)
  {
    if a == [] {
      assert a + b == b;
    } else {
      var first, rest := a[0], a[1..];
      assert a == [first] + rest && a + b == [first] + (rest + b);
      NamesInCons(t, first, rest);
      NamesInCons(t, first, rest + b);
      NamesInAppend(t, rest, b);
    }
  }

  lemma NamesInSnoc(t: CharTable, pieces: seq<string>, piece: string)
    ensures NamesIn(t, pieces + [piece]) == NamesIn(t, pieces) + NameIn(t, piece)
  {
    NamesInAppend(t, pieces, [piece]);
    NamesInCons(t, piece, []);
    assert [piece] + [] == [piece];
  }

  /** Parsing goes through a comma: with `ParseOnePiece` this says what parsing is. */
  lemma ParseAtComma(t: CharTable, a: string, b: string)
    ensures Parse(t, a + "," + b) == Parse(t, a) + Parse(t, b)
  {
    SplitAtSeparator(a, b, ',');
    NamesInAppend(t, Split(a, ','), Split(b, ','));
  }

  lemma ParseOnePiece(t: CharTable, a: string)
    requires forall i :: 0 <= i < |a| ==> a[i] != ','
    ensures Parse(t, a) == NameIn(t, a)
  {
    SplitWithoutSeparator(a, ',');
    assert NamesIn(t, [a]) == NameIn(t, a) + NamesIn(t, []);
  }

  /** Trimming takes off white space at both ends and nothing else. */
  lemma {:induction false} TrimSurrounded(t: CharTable, before: string, core: string, after: string)
    requires forall i :: 0 <= i < |before| ==> t.white(before[i])
    requires forall i :: 0 <= i < |after| ==> t.white(after[i])
    requires core != "" && !t.white(core[0]) && !t.white(core[|core| - 1])
    ensures Trim(t, before + core + after) == core
    decreases |before| + |after|
  {
    var s := before + core + after;
    if before != "" {
      assert s[1..] == before[1..] + core + after;
      TrimSurrounded(t, before[1..], core, after);
    } else if after != "" {
      assert TrimStart(t, s) == s;
      assert s[..|s| - 1] == before + core + after[..|after| - 1];
      var shorter := before + core + after[..|after| - 1];
      assert TrimStart(t, shorter) == shorter;
      TrimSurrounded(t, before, core, after[..|after| - 1]);
    } else {
      assert s == core;
    }
  }

  lemma {:induction false} TrimEndCuts(t: CharTable, s: string) returns (after: string)
    ensures s == TrimEnd(t, s) + after
    ensures forall i :: 0 <= i < |after| ==> t.white(after[i])
    ensures TrimEnd(t, s) != "" ==> !t.white(TrimEnd(t, s)[|TrimEnd(t, s)| - 1])
    decreases |s|
  {
    if s == "" || !t.white(s[|s| - 1]) {
      after := "";
    } else {
      var shorter, last := s[..|s| - 1], s[|s| - 1];
      var rest := TrimEndCuts(t, shorter);
      after := rest + [last];
      assert s == shorter + [last] == TrimEnd(t, shorter) + after;
    }
  }

  lemma {:induction false} TrimStartCuts(t: CharTable, s: string) returns (before: string)
    ensures s == before + TrimStart(t, s)
    ensures forall i :: 0 <= i < |before| ==> t.white(before[i])
    ensures TrimStart(t, s) != "" ==> !t.white(TrimStart(t, s)[0])
  {
    if s == "" || !t.white(s[0]) {
      before := "";
    } else {
      var rest := TrimStartCuts(t, s[1..]);
      before := [s[0]] + rest;
      assert s == [s[0]] + s[1..] == before + TrimStart(t, s[1..]);
    }
  }

  /** Every text is white space, its trimmed core, white space; the core begins and ends with none. */
  lemma TrimCuts(t: CharTable, s: string) returns (before: string, after: string)
    ensures s == before + Trim(t, s) + after
    ensures forall i :: 0 <= i < |before| ==> t.white(before[i])
    ensures forall i :: 0 <= i < |after| ==> t.white(after[i])
    ensures Trim(t, s) != "" ==> !t.white(Trim(t, s)[0]) && !t.white(Trim(t, s)[|Trim(t, s)| - 1])
  {
    before := TrimStartCuts(t, s);
    after := TrimEndCuts(t, TrimStart(t, s));
    assert TrimStart(t, s) == Trim(t, s) + after;
  }

  lemma NameChars(t: CharTable, name: string)
    requires t.Valid() && t.ValidName(name)
    ensures forall i :: 0 <= i < |name| ==> !t.white(name[i]) && name[i] != ','
  {
  }

  /** A valid name, perhaps with a space in front, parses to itself. */
  lemma ParseName(t: CharTable, name: string)
    requires t.Valid() && t.ValidName(name)
    ensures Parse(t, name) == [name]
    ensures Parse(t, " " + name) == [name]
  {
    NameChars(t, name);
    TrimSurrounded(t, "", name, "");
    TrimSurrounded(t, " ", name, "");
    assert "" + name + "" == name && " " + name + "" == " " + name;
    ParseOnePiece(t, name);
    ParseOnePiece(t, " " + name);
  }

  lemma PrintCons(first: string, rest: seq<string>)
    requires rest != []
    ensures Print([first] + rest) == first + "," + (" " + Print(rest))
    ensures " " + Print([first] + rest) == (" " + first) + "," + (" " + Print(rest))
  {
    assert ([first] + rest)[1..] == rest;
    assert first + ", " + Print(rest) == first + "," + (" " + Print(rest));
  }

  lemma {:induction false} ParseJoined(t: CharTable, names: seq<string>)
    requires t.Valid() && AllValid(t, names) && names != []
    ensures Parse(t, Print(names)) == names
    ensures Parse(t, " " + Print(names)) == names
  {
    var first, rest := names[0], names[1..];
    ParseName(t, first);
    assert names == [first] + rest;
    if rest != [] {
      ParseJoined(t, rest);
      PrintCons(first, rest);
      ParseAtComma(t, first, " " + Print(rest));
      ParseAtComma(t, " " + first, " " + Print(rest));
    }
  }

  /** Printing and parsing a list of valid names gives it back, order and repetitions kept. */
  lemma HeaderRoundTrip(t: CharTable, names: seq<string>)
    requires t.Valid() && AllValid(t, names)
    ensures Parse(t, Print(names)) == names
  {
    if names == [] {
      ParseOnePiece(t, "");
    } else {
      ParseJoined(t, names);
    }
  }

  lemma {:induction false} NamesInAreValid(t: CharTable, pieces: seq<string>)
    ensures AllValid(t, NamesIn(t, pieces))
  {
    if pieces != [] {
      NamesInAreValid(t, pieces[1..]);
    }
  }

  /** Whatever text comes in, what was read of it survives printing and reading again. */
  lemma ParsedHeaderIsStable(t: CharTable, header: string)
    requires t.Valid()
    ensures AllValid(t, Parse(t, header))
    ensures Parse(t, Print(Parse(t, header))) == Parse(t, header)
  {
    NamesInAreValid(t, Split(header, ','));
    HeaderRoundTrip(t, Parse(t, header));
  }

  // ---------------------------------------------------------------- names and pieces, in plain terms

  /** A name is valid when it has characters and each is alphanumeric, a hyphen or an underscore. */
  lemma ValidNames(t: CharTable, name: string)
    ensures t.ValidName(name)
            <==> |name| > 0 && forall c :: c in name ==> t.alphanumeric(c) || c == '-' || c == '_'
  {
    if t.ValidName(name) {
      assert forall c :: c in name ==> t.NameChar(c);
    } else if |name| > 0 {
      var i :| 0 <= i < |name| && !t.NameChar(name[i]);
      assert name[i] in name;
    }
  }

  /** A valid name with white space around it contributes that name ... */
  lemma PaddedName(t: CharTable, before: string, name: string, after: string)
    requires t.Valid() && t.ValidName(name)
    requires forall i :: 0 <= i < |before| ==> t.white(before[i])
    requires forall i :: 0 <= i < |after| ==> t.white(after[i])
    ensures Parse(t, before + name + after) == [name]
  {
    NameChars(t, name);
    TrimSurrounded(t, before, name, after);
    var piece := before + name + after;
    forall i | 0 <= i < |piece|
      ensures piece[i] != ','
    {
      if i < |before| {
        assert piece[i] == before[i];
      } else if i < |before| + |name| {
        assert piece[i] == name[i - |before|];
      } else {
        assert piece[i] == after[i - |before| - |name|];
      }
    }
    ParseOnePiece(t, piece);
  }

  /** ... and a piece that is no valid name between white space contributes nothing. */
  lemma OtherPiece(t: CharTable, piece: string)
    requires forall i :: 0 <= i < |piece| ==> piece[i] != ','
    requires forall before, name, after ::
               piece == before + name + after
               && (forall i :: 0 <= i < |before| ==> t.white(before[i]))
               && (forall i :: 0 <= i < |after| ==> t.white(after[i]))
               ==> !t.ValidName(name)
    ensures Parse(t, piece) == []
  {
    ParseOnePiece(t, piece);
    var before, after := TrimCuts(t, piece);
  }

  /** The printed text: the names with a comma and a space between. */
  lemma PrintedText(names: seq<string>, name: string)
    ensures SubprotocolList([]).ToHeaderValue() == ""
    ensures SubprotocolList([name]).ToHeaderValue() == name
    ensures names != [] ==>
              SubprotocolList([name] + names).ToHeaderValue()
              == name + ", " + SubprotocolList(names).ToHeaderValue()
  {
    assert ([name] + names)[1..] == names;
  }

  // ---------------------------------------------------------------- the client

  datatype SubprotocolList = SubprotocolList(protocols: seq<string>) {
    function WithProtocol(t: CharTable, name: string): Result<SubprotocolList, Error> {
      if t.ValidName(name) then Ok(SubprotocolList(protocols + [name])) else Err(InvalidSubprotocol(name))
    }

    function ToHeaderValue(): string {
      Print(protocols)
    }

    function ParseResponse(selected: Option<string>): Result<Option<string>, Error> {
      match selected
      case None => Ok(None)
      case Some(name) => if name in protocols then Ok(Some(name)) else Err(NegotiationFailed(name))
    }
  }

  /** The client accepts no answer or one of its own names, and that unchanged; any other name is an error. */
  lemma AcceptsExactlyItsOwn(offer: SubprotocolList, answer: Option<string>)
    ensures offer.ParseResponse(answer).Ok? <==>
              answer == None || exists i :: 0 <= i < |offer.protocols| && answer == Some(offer.protocols[i])
    ensures offer.ParseResponse(answer).Ok? ==> offer.ParseResponse(answer).value == answer
    ensures offer.ParseResponse(answer).Err? ==>
              answer.Some? && offer.ParseResponse(answer).error == NegotiationFailed(answer.value)
  {
  }

  /** Offering a name appends it if it is valid, and is an error that names it otherwise. */
  lemma OffersGrow(t: CharTable, offer: SubprotocolList, name: string)
    ensures offer.WithProtocol(t, name)
         == if t.ValidName(name) then Ok(SubprotocolList(offer.protocols + [name])) else Err(InvalidSubprotocol(name))
  {
  }

  /** `from_slice`: the first invalid name spoils the list. */
  method FromSlice(t: CharTable, names: seq<string>) returns (r: Result<SubprotocolList, Error>)
    ensures r.Ok? <==> AllValid(t, names)
    ensures r.Ok? ==> r.value.protocols == names
    ensures r.Err? ==> exists i :: 0 <= i < |names| && AllValid(t, names[..i]) && !t.ValidName(names[i])
                                   && r.error == InvalidSubprotocol(names[i])
  {
    var list := SubprotocolList([]);
    for i := 0 to |names|
      invariant list.protocols == names[..i] && AllValid(t, names[..i])
    {
      assert names[..i + 1] == names[..i] + [names[i]];
      var next := list.WithProtocol(t, names[i]);
      if next.Err? {
        return Err(next.error);
      }
      list := next.value;
    }
    assert names[..|names|] == names;
    r := Ok(list);
  }

  method ParseHeader(t: CharTable, header: string) returns (list: SubprotocolList)
    ensures list.protocols == Parse(t, header)
  {
    var pieces := Split(header, ',');
    var protocols: seq<string> := [];
    for i := 0 to |pieces|
      invariant protocols == NamesIn(t, pieces[..i])
    {
      assert pieces[..i + 1] == pieces[..i] + [pieces[i]];
      NamesInSnoc(t, pieces[..i], pieces[i]);
      var name := Trim(t, pieces[i]);
      if name != "" {
        if t.ValidName(name) {
          protocols := protocols + [name];
        }
      }
    }
    assert pieces[..|pieces|] == pieces;
    list := SubprotocolList(protocols);
  }

  // ---------------------------------------------------------------- the server

  ghost predicate NoRepeats(names: seq<string>) {
    forall i, j :: 0 <= i < j < |names| ==> names[i] != names[j]
  }

  datatype SubprotocolNegotiator = SubprotocolNegotiator(protocols: seq<string>, allowWildcard: bool) {
    /** A valid name is supported afterwards, once; nothing else changes. */
    function WithProtocol(t: CharTable, name: string): (r: Result<SubprotocolNegotiator, Error>)
      ensures r.Ok? <==> t.ValidName(name)
      ensures r.Ok? ==> r.value.allowWildcard == allowWildcard
                        && (forall p :: p in r.value.protocols <==> p in protocols || p == name)
      ensures r.Err? ==> r.error == InvalidSubprotocol(name)
      ensures r.Ok? && NoRepeats(protocols) ==> NoRepeats(r.value.protocols)
    {
      if !t.ValidName(name) then Err(InvalidSubprotocol(name))
      else if name in protocols then Ok(this)
      else Ok(this.(protocols := protocols + [name]))
    }

    predicate Supports(name: string) {
      name in protocols
    }

    /** The selection, said without a scan: the leftmost offer that suits the server. */
    ghost predicate IsSelection(offers: seq<string>, selected: Option<string>) {
      match selected
      case None => forall i :: 0 <= i < |offers| ==> !allowWildcard && offers[i] !in protocols
      case Some(name) =>
        exists i :: && 0 <= i < |offers| && offers[i] == name && (allowWildcard || name in protocols)
                    && forall j :: 0 <= j < i ==> !allowWildcard && offers[j] !in protocols
    }

    method Negotiate(client: SubprotocolList) returns (selected: Option<string>)
      ensures IsSelection(client.protocols, selected)
    {
      if client.protocols == [] {
        return None;
      }
      if allowWildcard {
        return Some(client.protocols[0]);
      }
      for i := 0 to |client.protocols|
        invariant forall j :: 0 <= j < i ==> client.protocols[j] !in protocols
      {
        if Supports(client.protocols[i]) {
          return Some(client.protocols[i]);
        }
      }
      return None;
    }

    method ShouldReject(client: SubprotocolList) returns (reject: bool)
      ensures reject <==> client.protocols != [] && !allowWildcard
                          && forall i :: 0 <= i < |client.protocols| ==> client.protocols[i] !in protocols
    {
      var selected := Negotiate(client);
      reject := client.protocols != [] && selected.None?;
      if selected.Some? {
        ghost var i :| && 0 <= i < |client.protocols| && client.protocols[i] == selected.value
                       && (allowWildcard || selected.value in protocols);
        assert client.protocols[i] in protocols || allowWildcard;
      } else if client.protocols != [] {
        assert client.protocols[0] !in protocols && !allowWildcard;
      }
    }
  }

  /** There is one selection, and it depends only on the set of names the server supports. */
  lemma SelectionDependsOnTheSet(a: SubprotocolNegotiator, b: SubprotocolNegotiator, offers: seq<string>,
                                 x: Option<string>, y: Option<string>)
    requires a.allowWildcard == b.allowWildcard
    requires forall name :: name in a.protocols <==> name in b.protocols
    requires a.IsSelection(offers, x) && b.IsSelection(offers, y)
    ensures x == y
  {
    if x.Some? && y.Some? {
      var i :| && 0 <= i < |offers| && offers[i] == x.value && (a.allowWildcard || x.value in a.protocols)
               && forall j :: 0 <= j < i ==> !a.allowWildcard && offers[j] !in a.protocols;
      var k :| && 0 <= k < |offers| && offers[k] == y.value && (b.allowWildcard || y.value in b.protocols)
               && forall j :: 0 <= j < k ==> !b.allowWildcard && offers[j] !in b.protocols;
      assert i == k;
    }
  }

  /** The whole handshake: the offer goes over the wire as text, the server reads it and selects, and
      the client always accepts; no selection means no offer suits the server. */
  method Handshake(t: CharTable, offer: SubprotocolList, server: SubprotocolNegotiator)
    returns (selected: Option<string>, response: Result<Option<string>, Error>)
    requires t.Valid() && AllValid(t, offer.protocols)
    ensures server.IsSelection(offer.protocols, selected)
    ensures response == Ok(selected)
  {
    var header := offer.ToHeaderValue();
    var seen := ParseHeader(t, header);
    HeaderRoundTrip(t, offer.protocols);
    selected := server.Negotiate(seen);
    response := offer.ParseResponse(selected);
  }
}

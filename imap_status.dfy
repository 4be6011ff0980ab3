/**
 * The argument grammar of the IMAP STATUS command (RFC 3501 section 6.3.10,
 * RFC 9051 section 6.3.11): a tokenised request becomes a tag, a decoded
 * mailbox name and the list of requested status items, or a tagged error.
 *
 * Two collaborators are not part of this model and are passed in as
 * functions: `unwrap`, which turns a token into text or an error message
 * (`Token::unwrap_string`), and `decode`, the mailbox-name decoding that
 * depends on the protocol revision (`utf7_maybe_decode`, modified UTF-7 of
 * RFC 3501 section 5.1.3).
 */
module ImapStatus {
  import opened Wrappers
  import opened Ascii

  datatype Token = Argument(bytes: seq<byte>) | ParenthesisOpen | ParenthesisClose | Nil

  /** One fully received command line: its tag and its argument tokens. */
  datatype Request = Request(tag: string, tokens: seq<Token>)

  datatype ProtocolVersion = Rev1 | Rev2

  /** The ten attributes a client may ask STATUS to report. */
  datatype Status =
    | Messages | UidNext | UidValidity | Unseen | Deleted
    | Size | HighestModSeq | MailboxId | Recent | DeletedStorage

  datatype Arguments = Arguments(tag: string, mailboxName: string, items: seq<Status>)

  /** A BAD response: the client's tag and a human-readable reason. */
  datatype Error = Bad(tag: string, message: string)

  const MissingArguments := "Missing arguments."
  const ExpectedParenthesis := "Expected parenthesis after mailbox name."
  const InvalidArgument := "Invalid status return option argument."
  const NoItems := "At least one status item is required."

  /** The keyword each status item is spelled with on the wire. */
  function Keyword(s: Status): string
  {
    match s
    case Messages => "MESSAGES"
    case UidNext => "UIDNEXT"
    case UidValidity => "UIDVALIDITY"
    case Unseen => "UNSEEN"
    case Deleted => "DELETED"
    case Size => "SIZE"
    case HighestModSeq => "HIGHESTMODSEQ"
    case MailboxId => "MAILBOXID"
    case Recent => "RECENT"
    case DeletedStorage => "DELETED-STORAGE"
  }

  function UnknownOption(value: seq<byte>): string
  {
    "Invalid status option '" + Chars(value) + "'."
  }

  /** Every status item, in the order of the source's keyword table. */
  const AllStatus: seq<Status> :=
    [Messages, UidNext, UidValidity, Unseen, Deleted, Size, HighestModSeq, MailboxId, Recent, DeletedStorage]

  /** The first item of `table` whose keyword is `key`. */
  function LookupKeyword(key: string, table: seq<Status>): Option<Status>
  {
    if table == [] then None
    else if Keyword(table[0]) == key then Some(table[0])
    else LookupKeyword(key, table[1..])
  }

  /** `Status::parse`: a case-insensitive lookup of `value` in the ten-keyword table. */
  function ParseItem(value: seq<byte>): Result<Status, string>
  {
    match LookupKeyword(Upper(Chars(value)), AllStatus)
    case Some(s) => Ok(s)
    case None => Err(UnknownOption(value))
  }

  // ---------------------------------------------------------------------
  // Reference definition of the parse
  // ---------------------------------------------------------------------

  /** Position of the first `ParenthesisClose` at or after `from`, or `|toks|` if there is none. */
  function CloseIndex(toks: seq<Token>, from: nat): (k: nat)
    requires from <= |toks|
    ensures from <= k <= |toks|
    ensures forall j :: from <= j < k ==> toks[j] != ParenthesisClose
    ensures k < |toks| ==> toks[k] == ParenthesisClose
    decreases |toks| - from
  {
    if from == |toks| || toks[from] == ParenthesisClose then from else CloseIndex(toks, from + 1)
  }

  /** What one token inside the item list contributes: a status item or an error message. */
  function ItemOf(t: Token): Result<Status, string>
  {
    match t
    case Argument(value) => ParseItem(value)
    case _ => Err(InvalidArgument)
  }

  /**
   * The items of a list of tokens (none of them a close parenthesis), or the
   * error of the first token that is not a status item.
   */
  function ParseItems(list: seq<Token>): Result<seq<Status>, string>
  {
    if list == [] then Ok([])
    else
      match ParseItems(list[..|list| - 1])
      case Err(e) => Err(e)
      case Ok(items) =>
        match ItemOf(list[|list| - 1])
        case Err(e) => Err(e)
        case Ok(s) => Ok(items + [s])
  }

  /**
   * `ParseItems` succeeds exactly when every token is a status item, and then
   * returns their items in order, one per token; otherwise it fails with the
   * error of the first token that is not.
   */
  lemma {:induction false} ParseItemsMeaning(list: seq<Token>)
    ensures ParseItems(list).Ok? <==> forall j :: 0 <= j < |list| ==> ItemOf(list[j]).Ok?
    ensures ParseItems(list).Ok? ==>
              |ParseItems(list).value| == |list| &&
              forall j :: 0 <= j < |list| ==> ParseItems(list).value[j] == ItemOf(list[j]).value
    ensures ParseItems(list).Err? ==>
              exists k :: 0 <= k < |list| && ItemOf(list[k]) == Err(ParseItems(list).error) &&
                          forall j :: 0 <= j < k ==> ItemOf(list[j]).Ok?
  {
    if list != [] {
      var prefix := list[..|list| - 1];
      ParseItemsMeaning(prefix);
      assert forall j :: 0 <= j < |prefix| ==> list[j] == prefix[j];
    }
  }

  /**
   * The outcome of `parse_status` for `req`: at least four tokens, a mailbox
   * name, an open parenthesis, then the items up to the first close
   * parenthesis (or the end of the tokens), at least one of them.
   */
  function ParseStatusSpec(req: Request, version: ProtocolVersion,
                           unwrap: Token -> Result<string, string>,
                           decode: (string, ProtocolVersion) -> string): Result<Arguments, Error>
  {
    var toks := req.tokens;
    if |toks| <= 3 then Err(Bad(req.tag, MissingArguments))
    else match unwrap(toks[0])
      case Err(msg) => Err(Bad(req.tag, msg))
      case Ok(name) =>
        if toks[1] != ParenthesisOpen then Err(Bad(req.tag, ExpectedParenthesis))
        else match ParseItems(toks[2..CloseIndex(toks, 2)])
          case Err(msg) => Err(Bad(req.tag, msg))
          case Ok(items) =>
            if items == [] then Err(Bad(req.tag, NoItems))
            else Ok(Arguments(req.tag, decode(name, version), items))
  }

  // ---------------------------------------------------------------------
  // The parser
  // ---------------------------------------------------------------------

  /** `Request::parse_status`: drains the tokens left to right, returning at the first error. */
  method ParseStatus(req: Request, version: ProtocolVersion,
                     unwrap: Token -> Result<string, string>,
                     decode: (string, ProtocolVersion) -> string)
    returns (r: Result<Arguments, Error>)
    ensures r == ParseStatusSpec(req, version, unwrap, decode)
  {
    var toks := req.tokens;
    if |toks| <= 3 {
      return Err(Bad(req.tag, MissingArguments));
    }
    var first := unwrap(toks[0]);
    if first.Err? {
      return Err(Bad(req.tag, first.error));
    }
    var mailboxName := decode(first.value, version);
    var items: seq<Status> := [];
    if toks[1] != ParenthesisOpen {
      return Err(Bad(req.tag, ExpectedParenthesis));
    }
    var i := 2;
    while i < |toks|
      invariant 2 <= i <= CloseIndex(toks, 2)
      invariant ParseItems(toks[2..i]) == Ok(items)
    {
      match toks[i] {
        case ParenthesisClose =>
          break;
        case Argument(value) =>
          var item := ParseItem(value);
          assert ItemOf(toks[i]) == item;
          if item.Err? {
            ParseItemsFailAt(toks, i, items);
            return Err(Bad(req.tag, item.error));
          }
          ParseItemsSnoc(toks, i);
          items := items + [item.value];
        case _ =>
          assert ItemOf(toks[i]) == Err(InvalidArgument);
          ParseItemsFailAt(toks, i, items);
          return Err(Bad(req.tag, InvalidArgument));
      }
      i := i + 1;
    }
    assert i == CloseIndex(toks, 2);
    if items != [] {
      return Ok(Arguments(req.tag, mailboxName, items));
    } else {
      return Err(Bad(req.tag, NoItems));
    }
  }

  /** Extending the list by one token: the first error stays, otherwise the token's item or error is added. */
  lemma ParseItemsSnoc(toks: seq<Token>, i: nat)
    requires 2 <= i < |toks|
    ensures ParseItems(toks[2..i + 1]) ==
      match ParseItems(toks[2..i])
      case Err(e) => Err(e)
      case Ok(items) =>
        match ItemOf(toks[i])
        case Err(e) => Err(e)
        case Ok(s) => Ok(items + [s])
  {
    assert toks[2..i + 1][..i - 2] == toks[2..i];
  }

  /** The first token of the list that is not a status item decides the error of the whole list. */
  lemma ParseItemsFailAt(toks: seq<Token>, i: nat, items: seq<Status>)
    requires 2 <= |toks| && 2 <= i < CloseIndex(toks, 2)
    requires ParseItems(toks[2..i]) == Ok(items) && ItemOf(toks[i]).Err?
    ensures ParseItems(toks[2..CloseIndex(toks, 2)]) == Err(ItemOf(toks[i]).error)
  {
    ParseItemsSnoc(toks, i);
    ParseItemsErrorStays(toks, i + 1, CloseIndex(toks, 2));
  }

  /** Once a prefix of the list fails, reading further tokens keeps that first error. */
  lemma {:induction false} ParseItemsErrorStays(toks: seq<Token>, i: nat, k: nat)
    requires 2 <= i <= k <= |toks|
    requires ParseItems(toks[2..i]).Err?
    ensures ParseItems(toks[2..k]) == ParseItems(toks[2..i])
    decreases k - i
  {
    if k > i {
      ParseItemsErrorStays(toks, i, k - 1);
      ParseItemsSnoc(toks, k - 1);
    }
  }

  /** The first close parenthesis is determined by the two properties `CloseIndex` promises. */
  lemma CloseIndexUnique(toks: seq<Token>, from: nat, k: nat)
    requires from <= k <= |toks|
    requires forall j :: from <= j < k ==> toks[j] != ParenthesisClose
    requires k < |toks| ==> toks[k] == ParenthesisClose
    ensures k == CloseIndex(toks, from)
  {
  }
}

/** Properties of the STATUS grammar. */
module ImapStatusProperties {
  import opened Wrappers
  import opened Ascii
  import opened ImapStatus

  // ---------------------------------------------------------------------
  // The keyword table
  // ---------------------------------------------------------------------

  lemma UpperOfUppercase(s: string)
    requires forall i :: 0 <= i < |s| ==> !IsLowerChar(s[i])
    ensures Upper(s) == s
  {
  }

  lemma KeywordIsUppercase(s: Status)
    ensures Upper(Keyword(s)) == Keyword(s)
  {
    match s
    case Messages => UpperOfUppercase("MESSAGES");
    case UidNext => UpperOfUppercase("UIDNEXT");
    case UidValidity => UpperOfUppercase("UIDVALIDITY");
    case Unseen => UpperOfUppercase("UNSEEN");
    case Deleted => UpperOfUppercase("DELETED");
    case Size => UpperOfUppercase("SIZE");
    case HighestModSeq => UpperOfUppercase("HIGHESTMODSEQ");
    case MailboxId => UpperOfUppercase("MAILBOXID");
    case Recent => UpperOfUppercase("RECENT");
    case DeletedStorage => UpperOfUppercase("DELETED-STORAGE");
  }

  /** Distinct status items are spelled differently, even up to case: the table is injective. */
  lemma KeywordInjective(s1: Status, s2: Status)
    ensures EqIgnoreCase(Keyword(s1), Keyword(s2)) ==> s1 == s2
  {
    EqIgnoreCaseIffUpperEqual(Keyword(s1), Keyword(s2));
    KeywordIsUppercase(s1);
    KeywordIsUppercase(s2);
  }

  /** The lookup finds an item of the table with that keyword, whenever there is one. */
  lemma {:induction false} LookupKeywordMeaning(key: string, table: seq<Status>)
    ensures LookupKeyword(key, table).Some? ==>
              LookupKeyword(key, table).value in table && Keyword(LookupKeyword(key, table).value) == key
    ensures (exists s :: s in table && Keyword(s) == key) ==> LookupKeyword(key, table).Some?
  {
    if table != [] && Keyword(table[0]) != key {
      LookupKeywordMeaning(key, table[1..]);
      assert forall s :: s in table && s != table[0] ==> s in table[1..];
    }
  }

  lemma KeywordsDistinct(s1: Status, s2: Status)
    ensures Keyword(s1) == Keyword(s2) ==> s1 == s2
  {
  }

  /** `Status::parse` maps `value` to `s` exactly when `value` is `s`'s keyword up to ASCII case. */
  lemma ParseItemMatchesKeyword(value: seq<byte>, s: Status)
    ensures ParseItem(value) == Ok(s) <==> EqIgnoreCase(Chars(value), Keyword(s))
  {
    var key := Upper(Chars(value));
    EqIgnoreCaseIffUpperEqual(Chars(value), Keyword(s));
    KeywordIsUppercase(s);
    LookupKeywordMeaning(key, AllStatus);
    assert s in AllStatus;
    var found := LookupKeyword(key, AllStatus);
    if found.Some? {
      KeywordsDistinct(found.value, s);
    }
  }

  /**
   * `Status::parse` fails exactly when `value` is none of the ten keywords,
   * and its message then quotes `value` verbatim.
   */
  lemma ParseItemFails(value: seq<byte>)
    ensures ParseItem(value).Err? <==> forall s: Status :: !EqIgnoreCase(Chars(value), Keyword(s))
    ensures ParseItem(value).Err? ==> ParseItem(value).error == "Invalid status option '" + Chars(value) + "'."
  {
    forall s: Status ensures ParseItem(value) == Ok(s) <==> EqIgnoreCase(Chars(value), Keyword(s)) {
      ParseItemMatchesKeyword(value, s);
    }
  }

  /** Every keyword, spelled in upper or in lower case, parses back to its own item. */
  lemma ParseItemOfKeyword(value: seq<byte>, s: Status)
    requires Chars(value) == Keyword(s) || Chars(value) == Lower(Keyword(s))
    ensures ParseItem(value) == Ok(s)
  {
    LowerIsLowercase(Keyword(s));
    if Chars(value) == Lower(Keyword(s)) {
      EqIgnoreCaseSymmetric(Lower(Keyword(s)), Keyword(s));
    }
    ParseItemMatchesKeyword(value, s);
  }

  // ---------------------------------------------------------------------
  // The request grammar
  // ---------------------------------------------------------------------

  /** Every outcome carries the request's tag. */
  lemma ParseStatusKeepsTag(req: Request, version: ProtocolVersion,
                            unwrap: Token -> Result<string, string>,
                            decode: (string, ProtocolVersion) -> string)
    ensures var r := ParseStatusSpec(req, version, unwrap, decode);
            (r.Ok? ==> r.value.tag == req.tag) && (r.Err? ==> r.error.tag == req.tag)
  {
  }

  /**
   * The checks before the item list: fewer than four tokens, a first token
   * that is not a string, a second token that is not an open parenthesis.
   */
  lemma ParseStatusHeadErrors(req: Request, version: ProtocolVersion,
                              unwrap: Token -> Result<string, string>,
                              decode: (string, ProtocolVersion) -> string)
    ensures |req.tokens| <= 3 ==>
              ParseStatusSpec(req, version, unwrap, decode) == Err(Bad(req.tag, "Missing arguments."))
    ensures |req.tokens| > 3 && unwrap(req.tokens[0]).Err? ==>
              ParseStatusSpec(req, version, unwrap, decode) == Err(Bad(req.tag, unwrap(req.tokens[0]).error))
    ensures |req.tokens| > 3 && unwrap(req.tokens[0]).Ok? && req.tokens[1] != ParenthesisOpen ==>
              ParseStatusSpec(req, version, unwrap, decode) ==
              Err(Bad(req.tag, "Expected parenthesis after mailbox name."))
  {
  }

  /** The request passes the checks before the item list. */
  predicate HeadOk(req: Request, unwrap: Token -> Result<string, string>)
  {
    |req.tokens| > 3 && unwrap(req.tokens[0]).Ok? && req.tokens[1] == ParenthesisOpen
  }

  /** The token is an argument naming a status item. */
  predicate IsItemToken(t: Token)
  {
    t.Argument? && ParseItem(t.bytes).Ok?
  }

  /**
   * Parsing succeeds exactly when the head is right and the tokens between the
   * open parenthesis and the first close parenthesis (or the end of the
   * tokens) are one or more status keywords; the items are then those
   * keywords' images, in order and with duplicates, and the mailbox name is
   * the decoded first token.
   */
  lemma ParseStatusSucceeds(req: Request, version: ProtocolVersion,
                            unwrap: Token -> Result<string, string>,
                            decode: (string, ProtocolVersion) -> string)
    ensures var toks := req.tokens;
            ParseStatusSpec(req, version, unwrap, decode).Ok? <==>
              HeadOk(req, unwrap) && CloseIndex(toks, 2) > 2 &&
              forall j :: 2 <= j < CloseIndex(toks, 2) ==> IsItemToken(toks[j])
    ensures var toks := req.tokens;
            var r := ParseStatusSpec(req, version, unwrap, decode);
            r.Ok? ==>
              r.value.tag == req.tag &&
              r.value.mailboxName == decode(unwrap(toks[0]).value, version) &&
              |r.value.items| == CloseIndex(toks, 2) - 2 &&
              forall j :: 2 <= j < CloseIndex(toks, 2) ==> r.value.items[j - 2] == ParseItem(toks[j].bytes).value
  {
    var toks := req.tokens;
    if HeadOk(req, unwrap) {
      var list := toks[2..CloseIndex(toks, 2)];
      ParseItemsMeaning(list);
      assert forall j :: 2 <= j < CloseIndex(toks, 2) ==> toks[j] == list[j - 2];
      if forall j :: 2 <= j < CloseIndex(toks, 2) ==> IsItemToken(toks[j]) {
        assert forall j :: 0 <= j < |list| ==> ItemOf(list[j]).Ok? by {
          forall j | 0 <= j < |list| ensures ItemOf(list[j]).Ok? {
            assert IsItemToken(toks[j + 2]);
          }
        }
      }
    }
  }

  /**
   * Inside the list, the first token that is not a status keyword decides the
   * error: an open parenthesis or NIL is an invalid argument, an unknown
   * keyword is named in the message.
   */
  lemma ParseStatusFirstBadToken(req: Request, version: ProtocolVersion,
                                 unwrap: Token -> Result<string, string>,
                                 decode: (string, ProtocolVersion) -> string, k: nat)
    requires HeadOk(req, unwrap)
    requires 2 <= k < CloseIndex(req.tokens, 2)
    requires forall j :: 2 <= j < k ==> IsItemToken(req.tokens[j])
    requires !IsItemToken(req.tokens[k])
    ensures req.tokens[k].Argument? ==>
              ParseStatusSpec(req, version, unwrap, decode) ==
              Err(Bad(req.tag, "Invalid status option '" + Chars(req.tokens[k].bytes) + "'."))
    ensures !req.tokens[k].Argument? ==>
              ParseStatusSpec(req, version, unwrap, decode) ==
              Err(Bad(req.tag, "Invalid status return option argument."))
  {
    var toks := req.tokens;
    var prefix := toks[2..k];
    ParseItemsMeaning(prefix);
    assert forall j :: 0 <= j < |prefix| ==> ItemOf(prefix[j]).Ok? by {
      forall j | 0 <= j < |prefix| ensures ItemOf(prefix[j]).Ok? {
        assert IsItemToken(toks[j + 2]);
      }
    }
    ParseItemsSnoc(toks, k);
    ParseItemsErrorStays(toks, k + 1, CloseIndex(toks, 2));
  }

  /** An open parenthesis directly followed by a close parenthesis: no items. */
  lemma ParseStatusEmptyList(req: Request, version: ProtocolVersion,
                             unwrap: Token -> Result<string, string>,
                             decode: (string, ProtocolVersion) -> string)
    requires HeadOk(req, unwrap) && req.tokens[2] == ParenthesisClose
    ensures ParseStatusSpec(req, version, unwrap, decode) ==
            Err(Bad(req.tag, "At least one status item is required."))
  {
  }

  /** Tokens after the first close parenthesis of the list do not change the outcome. */
  lemma ParseStatusIgnoresAfterClose(req: Request, extra: seq<Token>, version: ProtocolVersion,
                                     unwrap: Token -> Result<string, string>,
                                     decode: (string, ProtocolVersion) -> string)
    requires |req.tokens| > 3 && CloseIndex(req.tokens, 2) < |req.tokens|
    ensures ParseStatusSpec(Request(req.tag, req.tokens + extra), version, unwrap, decode) ==
            ParseStatusSpec(req, version, unwrap, decode)
  {
    var toks := req.tokens;
    var longer := toks + extra;
    var k := CloseIndex(toks, 2);
    CloseIndexUnique(longer, 2, k);
    assert longer[2..k] == toks[2..k];
    assert longer[0] == toks[0] && longer[1] == toks[1];
  }

  // ---------------------------------------------------------------------
  // Examples
  // ---------------------------------------------------------------------

  function Arg(s: string): Token
    requires forall i :: 0 <= i < |s| ==> s[i] as int < 256
  {
    Argument(Bytes(s))
  }

  lemma ExampleItems()
    ensures ParseItems([Arg("UIDNEXT"), Arg("MESSAGES")]) == Ok([UidNext, Messages])
  {
    var list := [Arg("UIDNEXT"), Arg("MESSAGES")];
    CharsOfBytes("UIDNEXT");
    CharsOfBytes("MESSAGES");
    ParseItemOfKeyword(Bytes("UIDNEXT"), UidNext);
    ParseItemOfKeyword(Bytes("MESSAGES"), Messages);
    assert ItemOf(list[0]) == Ok(UidNext) && ItemOf(list[1]) == Ok(Messages);
    ParseItemsMeaning(list);
    assert ParseItems(list).value == [UidNext, Messages];
  }

  /** `A042 STATUS blurdybloop (UIDNEXT MESSAGES)` yields the items `UidNext, Messages` in that order. */
  lemma ExampleUidNextMessages(unwrap: Token -> Result<string, string>,
                               decode: (string, ProtocolVersion) -> string)
    ensures var req := Request("A042", [Arg("blurdybloop"), ParenthesisOpen, Arg("UIDNEXT"), Arg("MESSAGES"), ParenthesisClose]);
            unwrap(Arg("blurdybloop")).Ok? ==>
              ParseStatusSpec(req, Rev2, unwrap, decode) ==
              Ok(Arguments("A042", decode(unwrap(Arg("blurdybloop")).value, Rev2), [UidNext, Messages]))
  {
    var toks := [Arg("blurdybloop"), ParenthesisOpen, Arg("UIDNEXT"), Arg("MESSAGES"), ParenthesisClose];
    ExampleItems();
    assert CloseIndex(toks, 2) == 4 by { CloseIndexUnique(toks, 2, 4); }
    assert toks[2..4] == [Arg("UIDNEXT"), Arg("MESSAGES")];
  }

  /**
   * `A1 STATUS inbox ()` has only three argument tokens, so the length check
   * rejects it before the empty list is noticed; likewise `A1 STATUS inbox
   * UIDNEXT)` before the missing parenthesis is.
   */
  lemma ExampleThreeTokens(unwrap: Token -> Result<string, string>,
                           decode: (string, ProtocolVersion) -> string, version: ProtocolVersion)
    ensures ParseStatusSpec(Request("A1", [Arg("inbox"), ParenthesisOpen, ParenthesisClose]), version, unwrap, decode)
            == Err(Bad("A1", "Missing arguments."))
    ensures ParseStatusSpec(Request("A1", [Arg("inbox"), Arg("UIDNEXT"), ParenthesisClose]), version, unwrap, decode)
            == Err(Bad("A1", "Missing arguments."))
  {
  }
}

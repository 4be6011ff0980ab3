# IMAP STATUS arguments and SQL principal rows, modelled in Dafny

This project models two small pieces of a mail server.

**The STATUS argument grammar of the IMAP server** (`crates/imap-proto/src/parser/status.rs`).
A request arrives already split into tokens: a tag plus a sequence of tokens,
each an `Argument` (bytes), `ParenthesisOpen`, `ParenthesisClose` or `Nil`.
`Request::parse_status` turns such a request into STATUS arguments or into a
BAD error that carries the client's tag. STATUS is defined in RFC 3501
section 6.3.10 and RFC 9051 section 6.3.11. The arguments are the tag, the
decoded mailbox name and the requested status items, in the order given and
with duplicates kept. `Status::parse` is a case-insensitive lookup from ten
keywords to the ten status items.

- `ImapStatus.ParseStatus` is a method with a loop over the tokens, as the
  source drains its token iterator. It is proved equal to the reference
  function `ImapStatus.ParseStatusSpec`.
- The lemmas in `ImapStatusProperties` state each outcome of the parse, and
  the keyword table's properties, for all inputs.
- Two collaborators are function parameters: `unwrap` stands for
  `Token::unwrap_string` and `decode` for `utf7_maybe_decode`. The latter is
  the modified UTF-7 of RFC 3501 section 5.1.3, applied according to the
  protocol revision.

**The SQL directory's row-to-principal translation** (`crates/directory/src/backend/sql/lookup.rs`).
`SqlMappings::row_to_principal` reads the first row of a query result. It
pairs the column names with that row's values. Each name is compared,
ignoring ASCII case, with the configured names of the secret, type,
description, e-mail and quota columns, in that order. A value of the expected
kind is stored in the principal; a later column overwrites an earlier one. A
type column sets the principal's type and, for the admin spellings, also
marks it as an administrator. The roles field is always set at the end.

- `SqlLookup.RowToPrincipal` is a method with a loop over the paired columns.
  It is proved equal to `SqlLookup.RowToPrincipalSpec`.
- The reference function describes each column as an `Effect`: the type it
  sets, whether it grants the admin role, and the fields it writes. The
  effects are then applied in order.
- The lemmas in `SqlLookupProperties` turn this into statements about the
  result: which column's value a field holds, the type, the role, and what
  is ignored.

The length check comes first and needs four tokens. So `A1 STATUS inbox ()`
fails with "Missing arguments." even though its list is empty, and
`A1 STATUS inbox UIDNEXT)` fails the same way although it lacks the open
parenthesis. `ImapStatusProperties.ExampleThreeTokens` proves both. Two more
behaviours of the code are modelled and proved:

- tokens after the first close parenthesis are ignored, although they still
  count toward the four-token minimum;
- a list that reaches the end of the tokens without a close parenthesis is
  accepted.

## Model

| member | source | states |
|---|---|---|
| `ImapStatus.ParseStatusSpec` | crates/imap-proto/src/parser/status.rs:14-68 | The reference outcome of `parse_status`, checking in the source's order: length, mailbox token, open parenthesis, the list up to the first close parenthesis, emptiness. It has no contract of its own; its meaning is stated by the `ImapStatusProperties.ParseStatus*` lemmas below |
| `ImapStatus.ParseItem` | crates/imap-proto/src/parser/status.rs:72-92 | `Status::parse` as a lookup of the uppercased bytes in the ten-keyword table. It has no contract of its own; its meaning is stated by `ImapStatusProperties.ParseItemMatchesKeyword` and `ImapStatusProperties.ParseItemFails` |
| `ImapStatus.ParseStatus` | crates/imap-proto/src/parser/status.rs:14-68 | The loop over the tokens, with its early returns, gives exactly the reference outcome: fewer than four tokens, a bad mailbox token, a missing open parenthesis, the first bad list token, an empty list, or the items up to the first close parenthesis |
| `ImapStatus.CloseIndex` | crates/imap-proto/src/parser/status.rs:40-42 | The list ends at the first `ParenthesisClose` after the open parenthesis, or at the end of the tokens when there is none |
| `ImapStatus.ParseItemsMeaning` | crates/imap-proto/src/parser/status.rs:40-55 | The list parses exactly when every token is a status keyword; the items are those tokens' images, one per token, in order; otherwise the error is that of the first bad token |
| `ImapStatus.ParseItemsErrorStays` | crates/imap-proto/src/parser/status.rs:45-53 | After the first failing token, the tokens that follow cannot change the error: the parse returns early |
| `ImapStatus.ParseItemsFailAt` | crates/imap-proto/src/parser/status.rs:43-53 | A bad token inside the list after only good ones makes the whole list fail with that token's error |
| `ImapStatusProperties.LookupKeywordMeaning` | crates/imap-proto/src/parser/status.rs:73-84 | The table lookup returns an item whose keyword is the key, and finds one whenever the table has one |
| `ImapStatusProperties.KeywordInjective` | crates/imap-proto/src/parser/status.rs:73-84 | No two status items have keywords that are equal up to ASCII case, so the lookup is injective |
| `ImapStatusProperties.ParseItemMatchesKeyword` | crates/imap-proto/src/parser/status.rs:72-84 | `Status::parse` yields item `s` exactly when the bytes equal `s`'s keyword up to ASCII case |
| `ImapStatusProperties.ParseItemFails` | crates/imap-proto/src/parser/status.rs:85-91 | `Status::parse` fails exactly when the bytes match none of the ten keywords, and the message is "Invalid status option '<bytes>'." quoting them verbatim |
| `ImapStatusProperties.ParseItemOfKeyword` | crates/imap-proto/src/parser/status.rs:73-84 | Each keyword, in upper or in lower case, parses back to its own item |
| `ImapStatusProperties.ParseStatusKeepsTag` | crates/imap-proto/src/parser/status.rs:14-68 | Every error and every success carries the request's tag |
| `ImapStatusProperties.ParseStatusHeadErrors` | crates/imap-proto/src/parser/status.rs:15-37 | 0 to 3 tokens give "Missing arguments." whatever they are; a first token that `unwrap_string` rejects gives its message; a second token that is not an open parenthesis gives "Expected parenthesis after mailbox name." |
| `ImapStatusProperties.ParseStatusSucceeds` | crates/imap-proto/src/parser/status.rs:40-64 | The parse succeeds iff the head checks pass and the tokens from the open parenthesis to the first close parenthesis (or the end) are one or more status keywords. On success the items are those keywords' images in order, duplicates kept, and the mailbox name is `decode` of the first token's text |
| `ImapStatusProperties.ParseStatusFirstBadToken` | crates/imap-proto/src/parser/status.rs:43-53 | The first bad list token decides the error: `ParenthesisOpen` or `Nil` gives "Invalid status return option argument."; an unknown argument gives "Invalid status option '<text>'." naming that exact text |
| `ImapStatusProperties.ParseStatusEmptyList` | crates/imap-proto/src/parser/status.rs:57-65 | An open parenthesis followed at once by a close parenthesis gives "At least one status item is required." |
| `ImapStatusProperties.ParseStatusIgnoresAfterClose` | crates/imap-proto/src/parser/status.rs:40-42 | Appending tokens after the first close parenthesis of a request with at least four tokens leaves the outcome unchanged |
| `ImapStatusProperties.ExampleUidNextMessages` | crates/imap-proto/src/parser/status.rs:103-121 | `A042 STATUS blurdybloop (UIDNEXT MESSAGES)` under Rev2 yields tag A042, the decoded mailbox name and the items [UidNext, Messages] |
| `ImapStatusProperties.ExampleThreeTokens` | crates/imap-proto/src/parser/status.rs:15-16 | `inbox ( )` and `inbox UIDNEXT )` have three tokens and fail with "Missing arguments." |
| `SqlLookup.RowToPrincipalSpec` | crates/directory/src/backend/sql/lookup.rs:262-305 | The reference result of `row_to_principal`: `None` without rows, else the first row's column effects applied in order to the default principal, then the roles field. It has no contract of its own; its meaning is stated by the `SqlLookupProperties.RowToPrincipal*` lemmas below |
| `SqlLookup.RowToPrincipal` | crates/directory/src/backend/sql/lookup.rs:262-305 | The loop over the zipped columns builds exactly the reference principal: `None` for no rows, otherwise the effects of the first row's columns applied in order, then the roles field |
| `SqlLookup.EffectOfByKind` | crates/directory/src/backend/sql/lookup.rs:272-300 | Per branch: the secret and description take text values, the e-mail takes a text value lowercased, the quota takes an integer value, the type column maps its text to a type and role; anything else writes nothing |
| `SqlLookup.ApplyEffectOf` | crates/directory/src/backend/sql/lookup.rs:272-300 | Applying one column's effect is the if/else-if chain of the source, the first matching column name winning |
| `SqlLookup.AsU64` | crates/directory/src/backend/sql/lookup.rs:298 | `quota as u64` keeps the 64 bits: the result is the value modulo 2^64, and a non-negative quota is unchanged |
| `SqlLookupProperties.EffectIgnoresNameCase` | crates/directory/src/backend/sql/lookup.rs:272-296 | Two column names that are equal up to ASCII case have the same effect |
| `SqlLookupProperties.IntegerTypeIgnored` | crates/directory/src/backend/sql/lookup.rs:277-287 | An integer in the type column is never a type name, so it changes neither the type nor the role |
| `SqlLookupProperties.UnmappedColumnIgnored` | crates/directory/src/backend/sql/lookup.rs:271-301 | A column whose name matches no configured name changes nothing, wherever it stands among the columns |
| `SqlLookupProperties.ApplyAllField` | crates/directory/src/backend/sql/lookup.rs:271-301 | A field is set exactly when some column writes it (or it was set before); it then holds the last such column's value, because `set` overwrites |
| `SqlLookupProperties.ApplyAllType` | crates/directory/src/backend/sql/lookup.rs:277-287 | The type is the one named by the last column that names one, or the starting type when none does |
| `SqlLookupProperties.ApplyAllRole` | crates/directory/src/backend/sql/lookup.rs:282-285 | The role becomes admin exactly when some column grants it, and never goes back |
| `SqlLookupProperties.RowToPrincipalRoles` | crates/directory/src/backend/sql/lookup.rs:263-304 | No rows give `None` and any row gives `Some`; the roles field is always set: admin iff a type column of the first row reads "admin", "superuser" or "administrator", otherwise user |
| `SqlLookupProperties.RowToPrincipalFirstRowOnly` | crates/directory/src/backend/sql/lookup.rs:270 | Rows after the first do not affect the result |
| `SqlLookupProperties.RowToPrincipalSurplusIgnored` | crates/directory/src/backend/sql/lookup.rs:271 | Names without values and values without names are ignored: the result equals that of both truncated to the shorter length |
| `SqlLookupProperties.RowToPrincipalField` | crates/directory/src/backend/sql/lookup.rs:271-301 | The secret, description, e-mail and quota fields are set exactly when a column of the first row writes them, and hold the last such write |
| `SqlLookupProperties.RowToPrincipalFieldOrigins` | crates/directory/src/backend/sql/lookup.rs:272-299 | A set secret or description is the text of a matching column; a set e-mail is such a text lowercased and has no capital letter; a set quota is an integer value of the quota column read as unsigned |
| `SqlLookupProperties.RowToPrincipalType` | crates/directory/src/backend/sql/lookup.rs:276-287 | The type is the one named by the last type column of the first row that names one ("individual", "person", "user" and the three admin spellings give Individual, "group" gives Group), else the default Individual |
| `SqlLookupProperties.RowToPrincipalSecretShadowsType` | crates/directory/src/backend/sql/lookup.rs:272-287 | When the secret and type column names coincide up to case, the secret branch wins and type and role keep their defaults |

## Left out

- The `Receiver` tokenizer (`crate::receiver`) is not part of this model: requests arrive as a tag and a token sequence. Literals, quoting and chunked input are therefore not modelled.
- The request's command field is left out; `parse_status` does not read it.
- `Token::unwrap_string` and `utf7_maybe_decode` are not part of this model. They are function parameters, so every statement holds for any behaviour of theirs.
- `trc` error context and location are left out; an error is the tag and the message.
- `String::from_utf8_lossy` in the "Invalid status option" message is modelled as one character per byte. This agrees with it for ASCII input only.
- `Vec::with_capacity` is a performance hint and is not modelled.
- The constant-time hashing inside `hashify::tiny_map_ignore_case!` is modelled as a search of the ten-keyword table after ASCII uppercasing.
- `SqlDirectory::query`, `email_to_id`, `rcpt`, `vrfy`, `expn` and `is_local_domain` are left out. They are asynchronous functions that sequence calls into the SQL and internal stores, including password verification. Their own small decisions are not modelled either:
  - for an OAuth bearer login, `query` uses the token as both user name and secret;
  - `query` sets the `Name` field;
  - `query` adds `MemberOf` ids only from rows whose first value is text, and merges the result into the stored principal with `update_external`;
  - `email_to_id` takes its id from the first row whose first value is text;
  - `rcpt` turns any store answer other than a list into `RcptType::Invalid`.
- `Principal`, `PrincipalField`, `Type`, `Principal::set`, `with_field`, `Principal::default()` and the role constants are defined elsewhere in the directory crate, and `Value` with `Value::to_str` and `NamedRows` in the store crate; none of their sources is part of this model. They are stubbed as follows:
  - a principal is a type plus a field map, and setting a field overwrites it;
  - the default principal is an individual with no fields;
  - `ROLE_USER` and `ROLE_ADMIN` are two distinct role values;
  - `to_str` gives the text of a text value and the decimal digits of an integer;
  - the store's other value kinds form one `Other` case that carries its rendering.
- SqlLookup.RowToPrincipal: lowercases e-mail addresses in ASCII only, because every e-mail write in `SqlLookup.FieldWrite` goes through `Ascii.Lower`. Rust's `to_lowercase` also folds non-ASCII letters: for "ÄB" the model gives "Äb" where Rust gives "äb".
- SqlLookup.EffectOfByKind, SqlLookup.ApplyEffectOf and SqlLookupProperties.RowToPrincipalFieldOrigins: "lowercased" in their contracts means ASCII lowercasing, for the same reason.
- `row_to_principal` always returns `Ok`, so its `trc::Result` wrapper is dropped and the result is an `Option`.

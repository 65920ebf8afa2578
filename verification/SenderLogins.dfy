/**
  The table of which SASL login may send as which address: its input checks, its text, and the
  relation that text grants when Postfix looks it up.
 */
module SenderLogins {
  import opened Text

  datatype SyncDomain = SyncDomain(domain: string, enabled: bool, catchAll: Option<string>)
  datatype SyncAccount = SyncAccount(email: string, passwordHash: string, enabled: bool, forwardTo: Option<string>)
  datatype SyncAlias = SyncAlias(source: string, destination: string)
  datatype SyncRequest = SyncRequest(domains: seq<SyncDomain>, accounts: seq<SyncAccount>, aliases: seq<SyncAlias>)

  const NO_AUTHORISED_SENDER := "dockpanel-no-authorised-sender"

  // ------------------------------------------------------------------ validation

  predicate IsAlphanumeric(c: char) {
    'a' <= c <= 'z' || 'A' <= c <= 'Z' || IsDigit(c)
  }

  predicate AddressChars(s: string, extra: string) {
    forall k :: 0 <= k < |s| ==> IsAlphanumeric(s[k]) || s[k] in "@._-+" || s[k] in extra
  }

  /** `local_part_is_safe` */
  predicate LocalPartIsSafe(addr: string) {
    match SplitOnce(addr, '@')
    case Some((local, domain)) => local != [] && domain != [] && exists k :: 0 <= k < |local| && local[k] != '.'
    case None => false
  }

  datatype Refusal = BadEmailChars | BadEmailFormat | BadEmailLocalPart | BadPasswordHash | BadForwardTo
                   | BadAlias | BadAliasLocalPart | BadCatchAll

  function CheckAccount(acc: SyncAccount): Option<Refusal> {
    if !AddressChars(acc.email, "") then Some(BadEmailChars)
    else if Count(acc.email, '@') != 1 then Some(BadEmailFormat)
    else if !LocalPartIsSafe(acc.email) then Some(BadEmailLocalPart)
    else if exists k :: 0 <= k < |acc.passwordHash| && acc.passwordHash[k] in ":\n\r\0\t" then Some(BadPasswordHash)
    else if acc.forwardTo.Some? && !AddressChars(acc.forwardTo.value, "") then Some(BadForwardTo)
    else None
  }

  function CheckAlias(a: SyncAlias): Option<Refusal> {
    if !AddressChars(a.source, "") || !AddressChars(a.destination, ",") then Some(BadAlias)
    else if !LocalPartIsSafe(a.source) then Some(BadAliasLocalPart)
    else None
  }

  function CheckDomain(d: SyncDomain): Option<Refusal> {
    if d.catchAll.Some? && !AddressChars(d.catchAll.value, "/") then Some(BadCatchAll) else None
  }

  ghost predicate Passes(body: SyncRequest) {
    && (forall k :: 0 <= k < |body.accounts| ==> CheckAccount(body.accounts[k]).None?)
    && (forall k :: 0 <= k < |body.aliases| ==> CheckAlias(body.aliases[k]).None?)
    && (forall k :: 0 <= k < |body.domains| ==> CheckDomain(body.domains[k]).None?)
  }

  // --------------------------------------------------------- what a request may hold

  /** Made of letters, digits and the characters of `others`. */
  predicate MadeOf(s: string, others: string) {
    forall k :: 0 <= k < |s| ==>
      'a' <= s[k] <= 'z' || 'A' <= s[k] <= 'Z' || '0' <= s[k] <= '9' || s[k] in others
  }

  predicate OnlyDots(s: string) {
    s == seq(|s|, _ => '.')
  }

  /** What would break out of a field of Dovecot's users file. */
  predicate BreaksField(hash: string) {
    ':' in hash || '\n' in hash || '\r' in hash || '\0' in hash || '\t' in hash
  }

  /** An address in its two parts; a mailbox has one `@`, an alias may be keyed by more. */
  predicate AddressOf(address: string, local: string, domain: string) {
    address == local + "@" + domain && '@' !in local && local != [] && domain != [] && !OnlyDots(local)
  }

  ghost predicate GoodAccount(acc: SyncAccount) {
    && MadeOf(acc.email, "@._-+")
    && (exists local, domain :: AddressOf(acc.email, local, domain) && '@' !in domain)
    && !BreaksField(acc.passwordHash)
    && (acc.forwardTo.Some? ==> MadeOf(acc.forwardTo.value, "@._-+"))
  }

  ghost predicate GoodAlias(a: SyncAlias) {
    && MadeOf(a.source, "@._-+") && MadeOf(a.destination, "@._-+,")
    && exists local, domain :: AddressOf(a.source, local, domain)
  }

  ghost predicate GoodDomain(d: SyncDomain) {
    d.catchAll.Some? ==> MadeOf(d.catchAll.value, "@._-+/")
  }

  ghost predicate Validated(body: SyncRequest) {
    && (forall k :: 0 <= k < |body.accounts| ==> GoodAccount(body.accounts[k]))
    && (forall k :: 0 <= k < |body.aliases| ==> GoodAlias(body.aliases[k]))
    && (forall k :: 0 <= k < |body.domains| ==> GoodDomain(body.domains[k]))
  }

  lemma MadeOfIff(s: string)
    ensures AddressChars(s, "") <==> MadeOf(s, "@._-+")
    ensures AddressChars(s, ",") <==> MadeOf(s, "@._-+,")
    ensures AddressChars(s, "/") <==> MadeOf(s, "@._-+/")
  {
  }

  lemma OnlyDotsIff(s: string)
    ensures OnlyDots(s) <==> forall k :: 0 <= k < |s| ==> s[k] == '.'
  {
  }

  /** Every refusal of an account, by the parts of its address around the first `@`. */
  lemma AccountVerdict(acc: SyncAccount, local: string, domain: string)
    requires acc.email == local + "@" + domain && '@' !in local
    ensures CheckAccount(acc) ==
            if !MadeOf(acc.email, "@._-+") then Some(BadEmailChars)
            else if '@' in domain then Some(BadEmailFormat)
            else if local == [] || domain == [] || OnlyDots(local) then Some(BadEmailLocalPart)
            else if BreaksField(acc.passwordHash) then Some(BadPasswordHash)
            else if acc.forwardTo.Some? && !MadeOf(acc.forwardTo.value, "@._-+") then Some(BadForwardTo)
            else None
  {
    hide AddressChars, MadeOf, OnlyDots, Count, SplitOnce;
    MadeOfIff(acc.email);
    if acc.forwardTo.Some? { MadeOfIff(acc.forwardTo.value); }
    OnlyDotsIff(local);
    SplitAt(local, domain);
    CountAt(local, domain);
  }

  lemma SplitAt(local: string, domain: string)
    requires '@' !in local
    ensures SplitOnce(local + "@" + domain, '@') == Some((local, domain))
  {
    hide Find;
    FirstOccurrence(local, '@', domain);
    assert local + "@" + domain == local + ['@'] + domain;
  }

  lemma CountAt(local: string, domain: string)
    requires '@' !in local
    ensures Count(local + "@" + domain, '@') == 1 <==> '@' !in domain
  {
    CountConcat(local + "@", domain, '@');
    CountConcat(local, "@", '@');
    CountConcat(domain, [], '@');
    CountOne('@');
  }

  lemma WithoutAtRefused(acc: SyncAccount)
    requires '@' !in acc.email
    ensures CheckAccount(acc) == if MadeOf(acc.email, "@._-+") then Some(BadEmailFormat) else Some(BadEmailChars)
  {
    hide AddressChars, MadeOf;
    MadeOfIff(acc.email);
    CountConcat(acc.email, [], '@');
  }

  /** An account passes exactly when it is `local@domain` with every part as described. */
  lemma AccountPassesIff(acc: SyncAccount)
    ensures CheckAccount(acc).None? <==> GoodAccount(acc)
  {
    hide MadeOf, OnlyDots, Count, SplitOnce, BreaksField, CheckAccount;
    SplitOnceShape(acc.email, '@');
    if '@' in acc.email {
      var (l, d) := SplitOnce(acc.email, '@').value;
      assert acc.email == l + "@" + d;
      AccountVerdict(acc, l, d);
      forall local, domain | AddressOf(acc.email, local, domain) ensures local == l && domain == d {
        SplitAt(local, domain);
      }
      assert CheckAccount(acc).None? ==> AddressOf(acc.email, l, d);
    } else {
      WithoutAtRefused(acc);
      forall local, domain ensures !AddressOf(acc.email, local, domain) {
        assert (local + "@" + domain)[|local|] == '@';
      }
    }
  }

  lemma AliasPassesIff(a: SyncAlias)
    ensures CheckAlias(a).None? <==> GoodAlias(a)
    ensures CheckAlias(a) == Some(BadAlias) <==> !MadeOf(a.source, "@._-+") || !MadeOf(a.destination, "@._-+,")
    ensures CheckAlias(a) in {None, Some(BadAlias), Some(BadAliasLocalPart)}
  {
    hide MadeOf, AddressChars, OnlyDots, SplitOnce;
    MadeOfIff(a.source);
    MadeOfIff(a.destination);
    SplitOnceShape(a.source, '@');
    if '@' in a.source {
      var (l, d) := SplitOnce(a.source, '@').value;
      assert a.source == l + "@" + d;
      OnlyDotsIff(l);
      forall local, domain | AddressOf(a.source, local, domain) ensures local == l && domain == d {
        SplitAt(local, domain);
      }
      assert CheckAlias(a).None? ==> AddressOf(a.source, l, d);
    } else {
      assert SplitOnce(a.source, '@').None?;
      forall local, domain ensures !AddressOf(a.source, local, domain) {
        assert (local + "@" + domain)[|local|] == '@';
      }
    }
  }

  lemma DomainPassesIff(d: SyncDomain)
    ensures CheckDomain(d) == if GoodDomain(d) then None else Some(BadCatchAll)
  {
    if d.catchAll.Some? {
      MadeOfIff(d.catchAll.value);
    }
  }

  /** The checks let through exactly the requests as described. */
  lemma PassesIff(body: SyncRequest)
    ensures Passes(body) <==> Validated(body)
  {
    hide CheckAccount, CheckAlias, CheckDomain, GoodAccount, GoodAlias, GoodDomain;
    forall k | 0 <= k < |body.accounts|
      ensures CheckAccount(body.accounts[k]).None? <==> GoodAccount(body.accounts[k])
    {
      AccountPassesIff(body.accounts[k]);
    }
    forall k | 0 <= k < |body.aliases| ensures CheckAlias(body.aliases[k]).None? <==> GoodAlias(body.aliases[k]) {
      AliasPassesIff(body.aliases[k]);
    }
    forall k | 0 <= k < |body.domains| ensures CheckDomain(body.domains[k]).None? <==> GoodDomain(body.domains[k]) {
      DomainPassesIff(body.domains[k]);
    }
  }

  /** The first `n` accounts are good, and the next is not. */
  ghost predicate FirstBadAccount(accounts: seq<SyncAccount>, n: nat) {
    && n < |accounts| && !GoodAccount(accounts[n])
    && forall k :: 0 <= k < n ==> GoodAccount(accounts[k])
  }

  ghost predicate FirstBadAlias(aliases: seq<SyncAlias>, n: nat) {
    && n < |aliases| && !GoodAlias(aliases[n])
    && forall k :: 0 <= k < n ==> GoodAlias(aliases[k])
  }

  /**
    The checks of `sync_config`: a request passes exactly when every account, alias and catch-all is as
    described; the first bad account is refused before any alias, and a bad alias before any catch-all.
   */
  method CheckSync(body: SyncRequest) returns (r: Option<Refusal>)
    ensures r.None? <==> Validated(body)
    ensures forall n: nat :: FirstBadAccount(body.accounts, n) ==> r == CheckAccount(body.accounts[n])
    ensures (forall k :: 0 <= k < |body.accounts| ==> GoodAccount(body.accounts[k])) ==>
              forall n: nat :: FirstBadAlias(body.aliases, n) ==> r == CheckAlias(body.aliases[n])
  {
    hide CheckAccount, CheckAlias, GoodAccount, GoodAlias, GoodDomain;
    for i := 0 to |body.accounts|
      invariant forall k :: 0 <= k < i ==> GoodAccount(body.accounts[k])
    {
      AccountPassesIff(body.accounts[i]);
      r := CheckAccount(body.accounts[i]);
      if r.Some? { return; }
    }
    for i := 0 to |body.aliases|
      invariant forall k :: 0 <= k < i ==> GoodAlias(body.aliases[k])
    {
      AliasPassesIff(body.aliases[i]);
      r := CheckAlias(body.aliases[i]);
      if r.Some? { return; }
    }
    for i := 0 to |body.domains|
      invariant forall k :: 0 <= k < i ==> GoodDomain(body.domains[k])
    {
      DomainPassesIff(body.domains[i]);
      r := CheckDomain(body.domains[i]);
      if r.Some? { return; }
    }
    r := None;
  }

  /** What configuring a domain lets through as its name. */
  predicate SafeDomainName(d: string) {
    forall k :: 0 <= k < |d| ==> IsAlphanumeric(d[k]) || d[k] == '.' || d[k] == '-'
  }

  ghost predicate SafeDomains(body: SyncRequest) {
    forall k :: 0 <= k < |body.domains| ==> SafeDomainName(body.domains[k].domain)
  }

  // ------------------------------------------------------------------- the table

  datatype Row = Row(key: string, owners: string)

  function Print(row: Row): string {
    row.key + "\t" + row.owners
  }

  function PrintAll(rows: seq<Row>): (r: seq<string>)
    ensures |r| == |rows| && forall k :: 0 <= k < |r| ==> r[k] == Print(rows[k])
  {
    if rows == [] then [] else [Print(rows[0])] + PrintAll(rows[1..])
  }

  function AccountRows(accounts: seq<SyncAccount>): (r: seq<Row>) {
    if accounts == [] then []
    else (if accounts[0].enabled then [Row(accounts[0].email, accounts[0].email)] else []) + AccountRows(accounts[1..])
  }

  predicate EndsWith(s: string, suffix: string) {
    |suffix| <= |s| && s[|s| - |suffix|..] == suffix
  }

  /** The enabled logins of a domain, in request order. */
  function Owners(accounts: seq<SyncAccount>, domain: string): (r: seq<string>) {
    if accounts == [] then []
    else (if accounts[0].enabled && EndsWith(accounts[0].email, "@" + domain) then [accounts[0].email] else [])
         + Owners(accounts[1..], domain)
  }

  function OwnersField(accounts: seq<SyncAccount>, domain: string): string {
    if Owners(accounts, domain) == [] then NO_AUTHORISED_SENDER else JoinBy(Owners(accounts, domain), ',')
  }

  function DomainRows(accounts: seq<SyncAccount>, domains: seq<SyncDomain>): (r: seq<Row>) {
    if domains == [] then []
    else (if domains[0].enabled then [Row("@" + domains[0].domain, OwnersField(accounts, domains[0].domain))] else [])
         + DomainRows(accounts, domains[1..])
  }

  function Rows(body: SyncRequest): seq<Row> {
    AccountRows(body.accounts) + DomainRows(body.accounts, body.domains)
  }

  lemma PrintOneMore(rows: seq<Row>, row: Row)
    ensures PrintAll(rows + [row]) == PrintAll(rows) + [row.key + "\t" + row.owners]
  {
  }

  /** The owners of one domain, as the table-building loop gathers them. */
  method DomainOwners(accounts: seq<SyncAccount>, domain: string) returns (field: string)
    ensures field == OwnersField(accounts, domain)
  {
    var suffix := "@" + domain;
    var owners: seq<string> := [];
    var k := 0;
    assert accounts[0..] == accounts;
    while k < |accounts|
      invariant k <= |accounts|
      invariant owners + Owners(accounts[k..], domain) == Owners(accounts, domain)
    {
      var a := accounts[k];
      assert accounts[k..][1..] == accounts[k + 1..];
      if a.enabled && EndsWith(a.email, suffix) {
        owners := owners + [a.email];
      }
      k := k + 1;
    }
    assert owners + [] == owners;
    field := if owners == [] then NO_AUTHORISED_SENDER else JoinBy(owners, ',');
  }

  /** `build_sender_login_map` */
  method BuildSenderLoginMap(body: SyncRequest) returns (text: string)
    ensures text == Join(PrintAll(Rows(body)))
  {
    hide OwnersField, PrintAll, Join, Owners, Print;
    var lines: seq<string> := [];
    ghost var rows: seq<Row> := [];
    var i := 0;
    assert body.accounts[0..] == body.accounts;
    while i < |body.accounts|
      invariant i <= |body.accounts| && lines == PrintAll(rows)
      invariant rows + AccountRows(body.accounts[i..]) == AccountRows(body.accounts)
    {
      var acc := body.accounts[i];
      assert body.accounts[i..][1..] == body.accounts[i + 1..];
      ghost var rest := AccountRows(body.accounts[i + 1..]);
      if acc.enabled {
        assert rows + ([Row(acc.email, acc.email)] + rest) == rows + [Row(acc.email, acc.email)] + rest;
        PrintOneMore(rows, Row(acc.email, acc.email));
        lines := lines + [acc.email + "\t" + acc.email];
        rows := rows + [Row(acc.email, acc.email)];
      }
      i := i + 1;
    }
    assert rows + [] == rows;
    var j := 0;
    assert body.domains[0..] == body.domains;
    while j < |body.domains|
      invariant j <= |body.domains| && lines == PrintAll(rows)
      invariant rows + DomainRows(body.accounts, body.domains[j..]) == Rows(body)
    {
      var d := body.domains[j];
      assert body.domains[j..][1..] == body.domains[j + 1..];
      if d.enabled {
        var field := DomainOwners(body.accounts, d.domain);
        ghost var rest := DomainRows(body.accounts, body.domains[j + 1..]);
        assert rows + ([Row("@" + d.domain, field)] + rest) == rows + [Row("@" + d.domain, field)] + rest;
        PrintOneMore(rows, Row("@" + d.domain, field));
        lines := lines + ["@" + d.domain + "\t" + field];
        rows := rows + [Row("@" + d.domain, field)];
      }
      j := j + 1;
    }
    assert rows + [] == rows;
    text := Join(lines);
  }

  // ------------------------------------------------------------ Postfix's reading

  /** The first line whose key is `key`; `postmap` keeps the first of duplicates. */
  function LookUp(lines: seq<string>, key: string): (r: Option<string>) {
    if lines == [] then None
    else
      match SplitOnce(lines[0], '\t')
      case Some((k, v)) => if k == key then Some(v) else LookUp(lines[1..], key)
      case None => LookUp(lines[1..], key)
  }

  /** The full address first, then its `@domain`. */
  function OwnersOf(table: string, sender: string): Option<string> {
    var full := LookUp(Lines(table), sender);
    if full.Some? then full
    else
      match SplitOnce(sender, '@')
      case Some((_, domain)) => LookUp(Lines(table), "@" + domain)
      case None => None
  }

  /** The armed restriction: an address the table does not list is refused. */
  predicate MaySendAs(table: string, login: string, sender: string) {
    var owners := OwnersOf(table, sender);
    owners.Some? && login in SplitCommas(owners.value)
  }

  // ------------------------------------------------------------- reading it back

  function RowFor(rows: seq<Row>, key: string): (r: Option<string>) {
    if rows == [] then None else if rows[0].key == key then Some(rows[0].owners) else RowFor(rows[1..], key)
  }

  predicate Printable(row: Row) {
    '\t' !in row.key && OneLine(row.key) && OneLine(row.owners) && '\r' !in row.owners
  }

  lemma {:induction false} FindConcat(a: seq<Row>, b: seq<Row>, key: string)
    ensures RowFor(a + b, key) == if RowFor(a, key).Some? then RowFor(a, key) else RowFor(b, key)
  {
    if a == [] {
      assert a + b == b;
    } else {
      assert (a + b)[1..] == a[1..] + b;
      FindConcat(a[1..], b, key);
    }
  }

  lemma {:induction false} LookUpPrinted(rows: seq<Row>, key: string)
    requires forall k :: 0 <= k < |rows| ==> Printable(rows[k])
    ensures LookUp(PrintAll(rows), key) == RowFor(rows, key)
  {
    if rows != [] {
      var row := rows[0];
      assert Printable(row);
      FirstOccurrence(row.key, '\t', row.owners);
      assert Print(row) == row.key + ['\t'] + row.owners;
      assert PrintAll(rows)[1..] == PrintAll(rows[1..]);
      assert forall k :: 0 <= k < |rows[1..]| ==> rows[1..][k] == rows[k + 1];
      LookUpPrinted(rows[1..], key);
    }
  }

  lemma PrintedRow(row: Row)
    requires Printable(row)
    ensures OneLine(Print(row)) && !EndsWithCr(Print(row)) && Print(row) != []
  {
  }

  lemma PrintedLinesReadBack(rows: seq<Row>)
    requires forall k :: 0 <= k < |rows| ==> Printable(rows[k])
    ensures Lines(Join(PrintAll(rows))) == PrintAll(rows)
  {
    hide Lines, Join, Print, Printable, PrintAll;
    var ls := PrintAll(rows);
    forall k | 0 <= k < |ls| ensures OneLine(ls[k]) && !EndsWithCr(ls[k]) && ls[k] != [] {
      PrintedRow(rows[k]);
    }
    LinesOfJoin(ls);
  }

  // ------------------------------------------------------------------ the relation

  /** `address` is an enabled mailbox of the request. */
  ghost predicate IsMailbox(accounts: seq<SyncAccount>, address: string) {
    exists k :: 0 <= k < |accounts| && accounts[k].enabled && accounts[k].email == address
  }

  ghost predicate IsDomain(domains: seq<SyncDomain>, domain: string) {
    exists k :: 0 <= k < |domains| && domains[k].enabled && domains[k].domain == domain
  }

  ghost predicate AtDomain(address: string, domain: string) {
    SplitOnce(address, '@').Some? && SplitOnce(address, '@').value.1 == domain
  }

  /** For an address with one `@`, ending in `@domain` is being at that domain — never at a subdomain of it. */
  lemma SuffixIsDomain(email: string, domain: string)
    requires Count(email, '@') == 1 && '@' !in domain
    ensures EndsWith(email, "@" + domain) <==> AtDomain(email, domain)
  {
    hide SplitOnce, Count;
    SplitOnceShape(email, '@');
    CountConcat(email, [], '@');
    var (l, r) := SplitOnce(email, '@').value;
    CountConcat(l + ['@'], r, '@');
    CountConcat(l, ['@'], '@');
    CountConcat(r, [], '@');
    CountOne('@');
    var tail := "@" + domain;
    if EndsWith(email, tail) {
      var n := |email| - |tail|;
      assert email[n] == tail[0] == '@';
      assert n == |l|;
      assert r == email[n + 1..] == tail[1..] == domain;
    }
    if r == domain {
      assert email[|l|..] == tail;
    }
  }

  lemma {:induction false} FindAccount(accounts: seq<SyncAccount>, key: string)
    ensures RowFor(AccountRows(accounts), key) == if IsMailbox(accounts, key) then Some(key) else None
  {
    if accounts != [] {
      FindAccount(accounts[1..], key);
      FindConcat(if accounts[0].enabled then [Row(accounts[0].email, accounts[0].email)] else [],
          AccountRows(accounts[1..]), key);
      MailboxCons(accounts, key);
    }
  }

  lemma MailboxCons(accounts: seq<SyncAccount>, key: string)
    requires accounts != []
    ensures IsMailbox(accounts, key) <==>
            (accounts[0].enabled && accounts[0].email == key) || IsMailbox(accounts[1..], key)
  {
    assert forall k :: 0 <= k < |accounts[1..]| ==> accounts[1..][k] == accounts[k + 1];
    if IsMailbox(accounts, key) {
      var k :| 0 <= k < |accounts| && accounts[k].enabled && accounts[k].email == key;
      assert k > 0 ==> accounts[1..][k - 1] == accounts[k];
    }
  }

  lemma {:induction false} FindDomain(accounts: seq<SyncAccount>, domains: seq<SyncDomain>, domain: string)
    ensures RowFor(DomainRows(accounts, domains), "@" + domain) ==
            if IsDomain(domains, domain) then Some(OwnersField(accounts, domain)) else None
  {
    if domains != [] {
      var d := domains[0];
      FindDomain(accounts, domains[1..], domain);
      FindConcat(if d.enabled then [Row("@" + d.domain, OwnersField(accounts, d.domain))] else [],
          DomainRows(accounts, domains[1..]), "@" + domain);
      assert ("@" + d.domain)[1..] == d.domain && ("@" + domain)[1..] == domain;
      assert forall k :: 0 <= k < |domains[1..]| ==> domains[1..][k] == domains[k + 1];
      if IsDomain(domains, domain) {
        var k :| 0 <= k < |domains| && domains[k].enabled && domains[k].domain == domain;
        assert k > 0 ==> domains[1..][k - 1] == domains[k];
      }
    }
  }

  /** No domain row answers for a key that is not `@` and a domain. */
  lemma {:induction false} DomainKeysStartWithAt(accounts: seq<SyncAccount>, domains: seq<SyncDomain>, key: string)
    requires key == [] || key[0] != '@'
    ensures RowFor(DomainRows(accounts, domains), key).None?
  {
    if domains != [] {
      DomainKeysStartWithAt(accounts, domains[1..], key);
      var d := domains[0];
      FindConcat(if d.enabled then [Row("@" + d.domain, OwnersField(accounts, d.domain))] else [],
                 DomainRows(accounts, domains[1..]), key);
    }
  }

  lemma {:induction false} OwnersAre(accounts: seq<SyncAccount>, domain: string, login: string)
    requires forall k :: 0 <= k < |accounts| ==> CheckAccount(accounts[k]).None?
    requires '@' !in domain
    ensures login in Owners(accounts, domain) <==> IsMailbox(accounts, login) && AtDomain(login, domain)
    ensures forall k :: 0 <= k < |Owners(accounts, domain)| ==> AddressChars(Owners(accounts, domain)[k], "")
  {
    if accounts != [] {
      assert CheckAccount(accounts[0]).None?;
      forall k | 0 <= k < |accounts[1..]| ensures CheckAccount(accounts[1..][k]).None? {
        assert accounts[1..][k] == accounts[k + 1];
      }
      OwnersAre(accounts[1..], domain, login);
      SuffixIsDomain(accounts[0].email, domain);
      MailboxCons(accounts, login);
    }
  }

  lemma NoCommas(s: string)
    requires AddressChars(s, "")
    ensures ',' !in s && '\t' !in s && '\n' !in s && '\r' !in s
  {
  }

  lemma SplitOwners(accounts: seq<SyncAccount>, domain: string, login: string)
    requires forall k :: 0 <= k < |accounts| ==> CheckAccount(accounts[k]).None?
    requires '@' !in domain
    ensures login in SplitCommas(OwnersField(accounts, domain)) <==>
            if Owners(accounts, domain) == [] then login == NO_AUTHORISED_SENDER
            else IsMailbox(accounts, login) && AtDomain(login, domain)
  {
    hide Owners, CheckAccount, SplitCommas, JoinBy;
    OwnersAre(accounts, domain, login);
    var owners := Owners(accounts, domain);
    forall k | 0 <= k < |owners| ensures ',' !in owners[k] {
      NoCommas(owners[k]);
    }
    if owners == [] {
      SplitOne(NO_AUTHORISED_SENDER);
    } else {
      SplitsJoined(owners);
    }
  }

  lemma SplitOne(s: string)
    requires ',' !in s
    ensures SplitCommas(s) == [s]
  {
    SplitsJoined([s]);
  }

  lemma {:induction false} JoinedIsPrintable(parts: seq<string>)
    requires forall k :: 0 <= k < |parts| ==> AddressChars(parts[k], "")
    ensures OneLine(JoinBy(parts, ',')) && '\r' !in JoinBy(parts, ',')
  {
    if parts != [] {
      NoCommas(parts[0]);
      assert AddressChars(parts[0], "");
      assert forall k :: 0 <= k < |parts[1..]| ==> parts[1..][k] == parts[k + 1];
      JoinedIsPrintable(parts[1..]);
    }
  }

  lemma {:induction false} AccountRowsPrintable(accounts: seq<SyncAccount>)
    requires forall k :: 0 <= k < |accounts| ==> CheckAccount(accounts[k]).None?
    ensures forall k :: 0 <= k < |AccountRows(accounts)| ==> Printable(AccountRows(accounts)[k])
  {
    if accounts != [] {
      assert CheckAccount(accounts[0]).None?;
      NoCommas(accounts[0].email);
      assert forall k :: 0 <= k < |accounts[1..]| ==> accounts[1..][k] == accounts[k + 1];
      AccountRowsPrintable(accounts[1..]);
    }
  }

  lemma OwnersFieldPrintable(accounts: seq<SyncAccount>, domain: string)
    requires forall k :: 0 <= k < |accounts| ==> CheckAccount(accounts[k]).None?
    requires '@' !in domain
    ensures OneLine(OwnersField(accounts, domain)) && '\r' !in OwnersField(accounts, domain)
  {
    hide CheckAccount, Owners, JoinBy;
    OwnersAre(accounts, domain, "");
    JoinedIsPrintable(Owners(accounts, domain));
  }

  lemma {:induction false} DomainRowsPrintable(accounts: seq<SyncAccount>, domains: seq<SyncDomain>)
    requires forall k :: 0 <= k < |accounts| ==> CheckAccount(accounts[k]).None?
    requires forall k :: 0 <= k < |domains| ==> SafeDomainName(domains[k].domain)
    ensures forall k :: 0 <= k < |DomainRows(accounts, domains)| ==> Printable(DomainRows(accounts, domains)[k])
  {
    if domains != [] {
      hide CheckAccount, OwnersField;
      var d := domains[0].domain;
      assert SafeDomainName(d);
      assert '\t' !in d && '\n' !in d && '@' !in d;
      OwnersFieldPrintable(accounts, d);
      assert Printable(Row("@" + d, OwnersField(accounts, d)));
      assert forall k :: 0 <= k < |domains[1..]| ==> domains[1..][k] == domains[k + 1];
      DomainRowsPrintable(accounts, domains[1..]);
    }
  }

  /** What the printed table answers for a key is what its rows say. */
  lemma TableAnswers(body: SyncRequest, key: string)
    requires Passes(body) && SafeDomains(body)
    ensures LookUp(Lines(Join(PrintAll(Rows(body)))), key) == RowFor(Rows(body), key)
  {
    AccountRowsPrintable(body.accounts);
    DomainRowsPrintable(body.accounts, body.domains);
    var a, d := AccountRows(body.accounts), DomainRows(body.accounts, body.domains);
    forall k | 0 <= k < |Rows(body)| ensures Printable(Rows(body)[k]) {
      assert Rows(body)[k] == if k < |a| then a[k] else d[k - |a|];
    }
    PrintedLinesReadBack(Rows(body));
    LookUpPrinted(Rows(body), key);
  }

  lemma MailboxNotDomainKey(accounts: seq<SyncAccount>, domain: string)
    requires forall k :: 0 <= k < |accounts| ==> CheckAccount(accounts[k]).None?
    ensures !IsMailbox(accounts, "@" + domain)
  {
    forall k | 0 <= k < |accounts| ensures accounts[k].email != "@" + domain {
      assert CheckAccount(accounts[k]).None?;
      SplitOnceShape(accounts[k].email, '@');
      var (l, r) := SplitOnce(accounts[k].email, '@').value;
      assert accounts[k].email[0] == l[0];
    }
  }

  /**
    The relation the table is for: oneself; or, as an address of an enabled domain that is no mailbox, any
    mailbox of that domain.
   */
  ghost predicate Granted(body: SyncRequest, login: string, sender: string) {
    if IsMailbox(body.accounts, sender) then login == sender
    else
      SplitOnce(sender, '@').Some? &&
      var domain := SplitOnce(sender, '@').value.1;
      IsDomain(body.domains, domain) &&
      if exists m :: IsMailbox(body.accounts, m) && AtDomain(m, domain)
      then IsMailbox(body.accounts, login) && AtDomain(login, domain)
      else login == "dockpanel-no-authorised-sender"
  }

  lemma NonEmptyOwners(accounts: seq<SyncAccount>, domain: string)
    requires forall k :: 0 <= k < |accounts| ==> CheckAccount(accounts[k]).None?
    requires '@' !in domain
    ensures Owners(accounts, domain) != [] <==> exists m :: IsMailbox(accounts, m) && AtDomain(m, domain)
  {
    var owners := Owners(accounts, domain);
    if owners != [] {
      OwnersAre(accounts, domain, owners[0]);
      assert owners[0] in owners;
    }
    if m :| IsMailbox(accounts, m) && AtDomain(m, domain) {
      OwnersAre(accounts, domain, m);
    }
  }

  lemma DomainHasNoAt(domains: seq<SyncDomain>, domain: string)
    requires forall k :: 0 <= k < |domains| ==> SafeDomainName(domains[k].domain)
    requires IsDomain(domains, domain)
    ensures '@' !in domain
  {
    var k :| 0 <= k < |domains| && domains[k].enabled && domains[k].domain == domain;
    assert SafeDomainName(domains[k].domain);
  }

  /**
    For every validated request with safe domain names, every login and every envelope sender: the printed table
    grants exactly the relation.
   */
  lemma TableGrantsExactly(body: SyncRequest, login: string, sender: string)
    requires Validated(body) && SafeDomains(body)
    ensures MaySendAs(Join(PrintAll(Rows(body))), login, sender) <==> Granted(body, login, sender)
  {
    hide PrintAll, Lines, Join, LookUp, Rows, SplitCommas, OwnersField, GoodAccount, GoodAlias, GoodDomain;
    PassesIff(body);
    TableAnswers(body, sender);
    Answer(body, sender);
    if IsMailbox(body.accounts, sender) {
      SplitMailbox(body.accounts, sender, login);
    } else if SplitOnce(sender, '@').Some? {
      var domain := SplitOnce(sender, '@').value.1;
      TableAnswers(body, "@" + domain);
      Answer(body, "@" + domain);
      MailboxNotDomainKey(body.accounts, domain);
      assert ("@" + domain)[1..] == domain;
      SplitOnceShape(sender, '@');
      if sender[0] == '@' {
        assert SplitOnce(sender, '@').value.0 == [];
        assert sender == "@" + domain;
      }
      if IsDomain(body.domains, domain) {
        DomainHasNoAt(body.domains, domain);
        SplitOwners(body.accounts, domain, login);
        NonEmptyOwners(body.accounts, domain);
      }
    } else {
      SplitOnceShape(sender, '@');
    }
  }

  /** What the rows say of one key. */
  lemma Answer(body: SyncRequest, key: string)
    ensures IsMailbox(body.accounts, key) ==> RowFor(Rows(body), key) == Some(key)
    ensures !IsMailbox(body.accounts, key) && (key == [] || key[0] != '@') ==> RowFor(Rows(body), key) == None
    ensures !IsMailbox(body.accounts, key) && key != [] && key[0] == '@' ==>
              RowFor(Rows(body), key) ==
              if IsDomain(body.domains, key[1..]) then Some(OwnersField(body.accounts, key[1..])) else None
  {
    FindAccount(body.accounts, key);
    FindConcat(AccountRows(body.accounts), DomainRows(body.accounts, body.domains), key);
    if key == [] || key[0] != '@' {
      DomainKeysStartWithAt(body.accounts, body.domains, key);
    } else {
      assert key == "@" + key[1..];
      FindDomain(body.accounts, body.domains, key[1..]);
    }
  }

  lemma SplitMailbox(accounts: seq<SyncAccount>, address: string, login: string)
    requires forall k :: 0 <= k < |accounts| ==> CheckAccount(accounts[k]).None?
    requires IsMailbox(accounts, address)
    ensures login in SplitCommas(address) <==> login == address
  {
    var k :| 0 <= k < |accounts| && accounts[k].enabled && accounts[k].email == address;
    assert CheckAccount(accounts[k]).None?;
    NoCommas(address);
    SplitOne(address);
  }

  /**
    No login ever sends across domains: for a login that is an address, login and sender are at one domain, and
    the login is an enabled mailbox.
   */
  lemma NoCrossDomainSending(body: SyncRequest, login: string, sender: string)
    requires Validated(body) && SafeDomains(body) && '@' in login
    requires MaySendAs(Join(PrintAll(Rows(body))), login, sender)
    ensures IsMailbox(body.accounts, login)
    ensures SplitOnce(login, '@').Some? && SplitOnce(sender, '@').Some?
    ensures SplitOnce(login, '@').value.1 == SplitOnce(sender, '@').value.1
  {
    hide MaySendAs, Rows, Join, PrintAll, SplitOnce, Validated, SafeDomains, IsMailbox;
    TableGrantsExactly(body, login, sender);
    SplitOnceShape(login, '@');
    PlaceholderIsNoAddress();
  }

  lemma PlaceholderIsNoAddress()
    ensures '@' !in "dockpanel-no-authorised-sender"
  {
  }

  /** Without the local-part check a mailbox named `@d` would take over its domain's row. */
  lemma UnsafeLocalPartShadowsDomain(domain: string)
    requires SafeDomainName(domain)
    ensures var body := SyncRequest([SyncDomain(domain, true, None)], [SyncAccount("@" + domain, "", true, None)], []);
            && CheckAccount(body.accounts[0]) == Some(BadEmailLocalPart)
            && RowFor(Rows(body), "@" + domain) == Some("@" + domain)
  {
    var acc := SyncAccount("@" + domain, "", true, None);
    assert "@" + domain == [] + ['@'] + domain;
    FirstOccurrence([], '@', domain);
    CountConcat("@", domain, '@');
    CountConcat(domain, "", '@');
    assert Count("@", '@') == 1 by { assert "@"[1..] == ""; }
    FindAccount([acc], acc.email);
    FindConcat(AccountRows([acc]), DomainRows([acc], [SyncDomain(domain, true, None)]), acc.email);
  }
}

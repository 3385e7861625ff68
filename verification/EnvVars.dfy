/** buildEnvVars of contracts/scripts/generate.js: the text of an environment file. */
module EnvVars {
  import opened EnvText
  import opened Naming

  datatype Group = Group(name: string, contracts: seq<string>)

  datatype Token = Token(symbol: string, address: string)

  const CHAIN_NAME := "Paxeer Network"
  const CHAIN_ID := "125"
  const RPC_URL := "https://public-mainnet.rpcpaxeer.online/app"
  const EXPLORER_URL := "https://paxscan.paxeer.app"
  const NATIVE_SYMBOL := "PAX"

  function AddressKey(prefix: string, name: string): string {
    prefix + name + "_ADDRESS"
  }

  function NetworkEntries(prefix: string): seq<Entry> {
    [(prefix + "RPC_URL", RPC_URL), (prefix + "CHAIN_ID", CHAIN_ID), (prefix + "CHAIN_NAME", CHAIN_NAME),
     (prefix + "EXPLORER_URL", EXPLORER_URL), (prefix + "NATIVE_SYMBOL", NATIVE_SYMBOL)]
  }

  function ProjectEntry(prefix: string): Entry {
    (prefix + "WALLETCONNECT_PROJECT_ID", "YOUR_PROJECT_ID_HERE")
  }

  function ContractEntries(prefix: string, names: seq<string>, address: string -> string): seq<Entry> {
    seq(|names|, i requires 0 <= i < |names| =>
      (AddressKey(prefix, CamelToScreamingSnake(names[i])), address(names[i])))
  }

  function TokenEntries(prefix: string, tokens: seq<Token>): seq<Entry> {
    seq(|tokens|, i requires 0 <= i < |tokens| => (AddressKey(prefix, tokens[i].symbol), tokens[i].address))
  }

  /** Everything an environment file defines, in order. */
  function AllEntries(prefix: string, names: seq<string>, tokens: seq<Token>, address: string -> string): seq<Entry> {
    NetworkEntries(prefix) + ContractEntries(prefix, names, address)
    + TokenEntries(prefix, tokens) + [ProjectEntry(prefix)]
  }

  /** The names of one group that get an address. */
  function Filter(names: seq<string>, addressable: seq<string>): seq<string> {
    if names == [] then []
    else (if names[0] in addressable then [names[0]] else []) + Filter(names[1..], addressable)
  }

  function Listed(groups: seq<Group>, addressable: seq<string>): seq<string> {
    if groups == [] then []
    else Listed(groups[..|groups| - 1], addressable) + Filter(groups[|groups| - 1].contracts, addressable)
  }

  function Define(entry: Entry): Line {
    Assign(entry.0, entry.1)
  }

  function Defines(entries: seq<Entry>): seq<Line> {
    seq(|entries|, i requires 0 <= i < |entries| => Define(entries[i]))
  }

  /** Lines that each define one entry. */
  lemma {:induction false} AssignedEach(lines: seq<Line>, entries: seq<Entry>)
    requires |lines| == |entries| && forall i | 0 <= i < |lines| :: lines[i] == Define(entries[i])
    ensures Assigned(lines) == entries
  {
    if lines != [] {
      var n := |lines| - 1;
      AssignedEach(lines[..n], entries[..n]);
      assert entries == entries[..n] + [(lines[n].key, lines[n].value)];
    }
  }

  lemma {:induction false} AssignedPlain(lines: seq<Line>)
    requires forall i | 0 <= i < |lines| :: !lines[i].Assign?
    ensures Assigned(lines) == []
  {
    if lines != [] {
      AssignedPlain(lines[..|lines| - 1]);
    }
  }

  /** Entries between comments and blank lines. */
  lemma {:induction false} AssignedBlock(before: seq<Line>, entries: seq<Entry>, after: seq<Line>)
    requires forall i | 0 <= i < |before| :: !before[i].Assign?
    requires forall i | 0 <= i < |after| :: !after[i].Assign?
    ensures Assigned(before + Defines(entries) + after) == entries
  {
    AssignedConcat(before + Defines(entries), after);
    AssignedConcat(before, Defines(entries));
    AssignedPlain(before);
    AssignedPlain(after);
    AssignedEach(Defines(entries), entries);
  }

  // ---------- the fixed lines ----------

  /** A title between rules. */
  function Ruled(title: string): string {
    "\U{2500}\U{2500} " + title + " \U{2500}\U{2500}"
  }

  const TITLE := "Sidiora Launchpad AMM " + "\U{2014} Environment Variables"
  const WALLET := "WalletConnect / Web3Modal " + "(frontend only)"
  const BACKEND := "Backend / Keeper (server-side " + "only \U{2014} NEVER prefix with " + "NEXT_PUBLIC_ etc.)"

  function HeaderBefore(generated: string): seq<Line> {
    [Comment(TITLE), Comment("Generated: " + generated), Comment("Chain: " + CHAIN_NAME + " (ID: " + CHAIN_ID + ")"),
     Blank, Comment(Ruled("Network"))]
  }

  const HEADER_AFTER := [Blank, Comment(Ruled("Contract Addresses"))]

  const FOOTER_BEFORE := [Comment(Ruled(WALLET))]

  function KeyPlaceholder(name: string): Line {
    Comment(name + "_PRIVATE_KEY=0x_" + "YOUR_PRIVATE_KEY_HERE")
  }

  const FOOTER_AFTER := [Blank, Comment(Ruled(BACKEND)), KeyPlaceholder("DEPLOYER"), KeyPlaceholder("KEEPER"),
                         KeyPlaceholder("ORACLE")]

  function Header(prefix: string, generated: string): (lines: seq<Line>)
    ensures Assigned(lines) == NetworkEntries(prefix)
  {
    AssignedBlock(HeaderBefore(generated), NetworkEntries(prefix), HEADER_AFTER);
    HeaderBefore(generated) + Defines(NetworkEntries(prefix)) + HEADER_AFTER
  }

  function Footer(prefix: string): (lines: seq<Line>)
    ensures Assigned(lines) == [ProjectEntry(prefix)]
  {
    AssignedBlock(FOOTER_BEFORE, [ProjectEntry(prefix)], FOOTER_AFTER);
    FOOTER_BEFORE + Defines([ProjectEntry(prefix)]) + FOOTER_AFTER
  }

  /** Every comment is one line. */
  predicate CommentsPlain(lines: seq<Line>) {
    forall i | 0 <= i < |lines| && lines[i].Comment? :: '\n' !in lines[i].text
  }

  lemma {:induction false} RuledPlain(title: string)
    requires '\n' !in title
    ensures '\n' !in Ruled(title)
  {
  }

  lemma {:induction false} TitlePlain()
    ensures '\n' !in TITLE
  {
    assert '\n' !in "Sidiora Launchpad AMM " && '\n' !in "\U{2014} Environment Variables";
  }

  lemma {:induction false} ChainPlain()
    ensures '\n' !in "Chain: " + CHAIN_NAME + " (ID: " + CHAIN_ID + ")"
  {
    assert '\n' !in CHAIN_NAME;
  }

  lemma {:induction false} WalletPlain()
    ensures '\n' !in WALLET
  {
    assert '\n' !in "WalletConnect / Web3Modal " && '\n' !in "(frontend only)";
  }

  lemma {:induction false} BackendPlain()
    ensures '\n' !in BACKEND
  {
    assert '\n' !in "Backend / Keeper (server-side ";
    assert '\n' !in "only \U{2014} NEVER prefix with " && '\n' !in "NEXT_PUBLIC_ etc.)";
  }

  lemma {:induction false} PlaceholderPlain(name: string)
    requires '\n' !in name
    ensures '\n' !in KeyPlaceholder(name).text
  {
  }

  lemma {:induction false} HeaderPlain(prefix: string, generated: string)
    requires '\n' !in generated
    ensures CommentsPlain(Header(prefix, generated))
  {
    TitlePlain();
    ChainPlain();
    RuledPlain("Network");
    RuledPlain("Contract Addresses");
    assert '\n' !in "Generated: " + generated;
    assert CommentsPlain(HeaderBefore(generated));
    assert CommentsPlain(HEADER_AFTER);
  }

  lemma {:induction false} FooterPlain(prefix: string)
    ensures CommentsPlain(Footer(prefix))
  {
    WalletPlain();
    RuledPlain(WALLET);
    BackendPlain();
    RuledPlain(BACKEND);
    PlaceholderPlain("DEPLOYER");
    PlaceholderPlain("KEEPER");
    PlaceholderPlain("ORACLE");
    assert CommentsPlain(FOOTER_BEFORE);
    assert CommentsPlain(FOOTER_AFTER);
  }

  // ---------- the loops ----------

  function ContractLine(prefix: string, name: string, address: string -> string): Line {
    Assign(AddressKey(prefix, CamelToScreamingSnake(name)), address(name))
  }

  function TokenLine(prefix: string, token: Token): Line {
    Assign(AddressKey(prefix, token.symbol), token.address)
  }

  function ContractLines(prefix: string, names: seq<string>, address: string -> string): seq<Line> {
    seq(|names|, i requires 0 <= i < |names| => ContractLine(prefix, names[i], address))
  }

  function TokenLines(prefix: string, tokens: seq<Token>): seq<Line> {
    seq(|tokens|, i requires 0 <= i < |tokens| => TokenLine(prefix, tokens[i]))
  }

  /** The lines of one group: a heading, its contracts and a blank line, or nothing. */
  function GroupLines(prefix: string, group: Group, addressable: seq<string>, address: string -> string): seq<Line> {
    var names := Filter(group.contracts, addressable);
    if names == [] then []
    else [Comment("-- " + group.name + " --")] + ContractLines(prefix, names, address) + [Blank]
  }

  function GroupsLines(prefix: string, groups: seq<Group>, addressable: seq<string>, address: string -> string)
    : seq<Line>
  {
    if groups == [] then []
    else
      var n := |groups| - 1;
      GroupsLines(prefix, groups[..n], addressable, address) + GroupLines(prefix, groups[n], addressable, address)
  }

  function TokensLines(prefix: string, tokens: seq<Token>): seq<Line> {
    if tokens == [] then [] else [Comment(Ruled("Tokens"))] + TokenLines(prefix, tokens) + [Blank]
  }

  /** All the lines of a file. */
  function FileLines(prefix: string, generated: string, groups: seq<Group>, addressable: seq<string>,
                     tokens: seq<Token>, address: string -> string): seq<Line>
  {
    Header(prefix, generated) + GroupsLines(prefix, groups, addressable, address) + TokensLines(prefix, tokens)
    + Footer(prefix)
  }

  method PushContracts(before: seq<Line>, prefix: string, names: seq<string>, address: string -> string)
    returns (lines: seq<Line>)
    ensures lines == before + ContractLines(prefix, names, address)
  {
    lines := before;
    for n := 0 to |names|
      invariant lines == before + ContractLines(prefix, names, address)[..n]
    {
      lines := lines + [ContractLine(prefix, names[n], address)];
    }
  }

  /** The list of tokens with its heading, if there are any. */
  method PushTokens(before: seq<Line>, prefix: string, tokens: seq<Token>) returns (lines: seq<Line>)
    ensures lines == before + TokensLines(prefix, tokens)
  {
    lines := before;
    if tokens != [] {
      var heading := Comment(Ruled("Tokens"));
      lines := lines + [heading];
      for t := 0 to |tokens|
        invariant lines == before + [heading] + TokenLines(prefix, tokens)[..t]
      {
        lines := lines + [TokenLine(prefix, tokens[t])];
      }
      lines := lines + [Blank];
      Enclosed(before, heading, TokenLines(prefix, tokens), Blank);
    }
  }

  /** The body of the loop over the groups. */
  method PushGroup(before: seq<Line>, prefix: string, group: Group, addressable: seq<string>,
                   address: string -> string) returns (lines: seq<Line>)
    ensures lines == before + GroupLines(prefix, group, addressable, address)
  {
    lines := before;
    var names := Filter(group.contracts, addressable);
    if names != [] {
      var heading := Comment("-- " + group.name + " --");
      lines := PushContracts(lines + [heading], prefix, names, address);
      lines := lines + [Blank];
      Enclosed(before, heading, ContractLines(prefix, names, address), Blank);
    }
  }

  /** Regrouping only. */
  lemma {:induction false} Behind(a: seq<Line>, b: seq<Line>, c: seq<Line>)
    ensures a + (b + c) == a + b + c
  {
  }

  lemma {:induction false} GroupsLinesSnoc(before: seq<Line>, prefix: string, groups: seq<Group>, g: nat,
                                           addressable: seq<string>, address: string -> string)
    requires g < |groups|
    ensures before + GroupsLines(prefix, groups[..g + 1], addressable, address) ==
            before + GroupsLines(prefix, groups[..g], addressable, address)
            + GroupLines(prefix, groups[g], addressable, address)
  {
    assert groups[..g + 1][..g] == groups[..g] && groups[..g + 1][g] == groups[g];
    Behind(before, GroupsLines(prefix, groups[..g], addressable, address),
           GroupLines(prefix, groups[g], addressable, address));
  }

  method PushGroups(before: seq<Line>, prefix: string, groups: seq<Group>, addressable: seq<string>,
                    address: string -> string) returns (lines: seq<Line>)
    ensures lines == before + GroupsLines(prefix, groups, addressable, address)
  {
    lines := before;
    assert before + [] == before;
    for g := 0 to |groups|
      invariant lines == before + GroupsLines(prefix, groups[..g], addressable, address)
    {
      GroupsLinesSnoc(before, prefix, groups, g, addressable, address);
      lines := PushGroup(lines, prefix, groups[g], addressable, address);
    }
    assert groups[..|groups|] == groups;
  }

  /** Regrouping only. */
  lemma {:induction false} Enclosed(before: seq<Line>, first: Line, lines: seq<Line>, last: Line)
    ensures before + [first] + lines + [last] == before + ([first] + lines + [last])
  {
  }

  // ---------- what the lines define ----------

  lemma {:induction false} AssignedContractLines(prefix: string, names: seq<string>, address: string -> string)
    ensures Assigned(ContractLines(prefix, names, address)) == ContractEntries(prefix, names, address)
  {
    AssignedEach(ContractLines(prefix, names, address), ContractEntries(prefix, names, address));
  }

  lemma {:induction false} AssignedTokenLines(prefix: string, tokens: seq<Token>)
    ensures Assigned(TokenLines(prefix, tokens)) == TokenEntries(prefix, tokens)
  {
    AssignedEach(TokenLines(prefix, tokens), TokenEntries(prefix, tokens));
  }

  /** A heading and a blank line define nothing. */
  lemma {:induction false} AssignedEnclosed(heading: string, lines: seq<Line>)
    ensures Assigned([Comment(heading)] + lines + [Blank]) == Assigned(lines)
  {
    AssignedLine([], Comment(heading));
    AssignedConcat([Comment(heading)], lines);
    AssignedLine([Comment(heading)] + lines, Blank);
    assert [] + [Comment(heading)] == [Comment(heading)];
  }

  lemma {:induction false} ContractEntriesConcat(prefix: string, a: seq<string>, b: seq<string>,
                                                 address: string -> string)
    ensures ContractEntries(prefix, a + b, address) ==
            ContractEntries(prefix, a, address) + ContractEntries(prefix, b, address)
  {
  }

  lemma {:induction false} AssignedGroupsLines(prefix: string, groups: seq<Group>, addressable: seq<string>,
                                               address: string -> string)
    ensures Assigned(GroupsLines(prefix, groups, addressable, address)) ==
            ContractEntries(prefix, Listed(groups, addressable), address)
  {
    if groups != [] {
      var n := |groups| - 1;
      var names := Filter(groups[n].contracts, addressable);
      AssignedGroupsLines(prefix, groups[..n], addressable, address);
      AssignedConcat(GroupsLines(prefix, groups[..n], addressable, address),
                     GroupLines(prefix, groups[n], addressable, address));
      AssignedEnclosed("-- " + groups[n].name + " --", ContractLines(prefix, names, address));
      AssignedContractLines(prefix, names, address);
      ContractEntriesConcat(prefix, Listed(groups[..n], addressable), names, address);
    }
  }

  lemma {:induction false} AssignedTokensLines(prefix: string, tokens: seq<Token>)
    ensures Assigned(TokensLines(prefix, tokens)) == TokenEntries(prefix, tokens)
  {
    AssignedTokenLines(prefix, tokens);
    AssignedEnclosed(Ruled("Tokens"), TokenLines(prefix, tokens));
  }

  lemma {:induction false} AssignedFileLines(prefix: string, generated: string, groups: seq<Group>,
                                             addressable: seq<string>, tokens: seq<Token>, address: string -> string)
    ensures Assigned(FileLines(prefix, generated, groups, addressable, tokens, address)) ==
            AllEntries(prefix, Listed(groups, addressable), tokens, address)
  {
    var header, footer := Header(prefix, generated), Footer(prefix);
    var contracts := GroupsLines(prefix, groups, addressable, address);
    var rest := TokensLines(prefix, tokens);
    AssignedConcat(header + contracts + rest, footer);
    AssignedConcat(header + contracts, rest);
    AssignedConcat(header, contracts);
    AssignedGroupsLines(prefix, groups, addressable, address);
    AssignedTokensLines(prefix, tokens);
  }

  /** The time stamp and the group names are one line each. */
  predicate HeadingsPlain(generated: string, groups: seq<Group>) {
    '\n' !in generated && forall g | 0 <= g < |groups| :: '\n' !in groups[g].name
  }

  lemma {:induction false} GroupLinesPlain(prefix: string, group: Group, addressable: seq<string>,
                                           address: string -> string)
    requires '\n' !in group.name
    ensures CommentsPlain(GroupLines(prefix, group, addressable, address))
  {
    assert '\n' !in "-- " + group.name + " --";
  }

  lemma {:induction false} GroupsLinesPlain(prefix: string, groups: seq<Group>, addressable: seq<string>,
                                            address: string -> string)
    requires forall g | 0 <= g < |groups| :: '\n' !in groups[g].name
    ensures CommentsPlain(GroupsLines(prefix, groups, addressable, address))
  {
    if groups != [] {
      var n := |groups| - 1;
      GroupsLinesPlain(prefix, groups[..n], addressable, address);
      GroupLinesPlain(prefix, groups[n], addressable, address);
    }
  }

  lemma {:induction false} TokensLinesPlain(prefix: string, tokens: seq<Token>)
    ensures CommentsPlain(TokensLines(prefix, tokens))
  {
    RuledPlain("Tokens");
  }

  lemma {:induction false} FileLinesPlain(prefix: string, generated: string, groups: seq<Group>,
                                          addressable: seq<string>, tokens: seq<Token>, address: string -> string)
    requires HeadingsPlain(generated, groups)
    ensures CommentsPlain(FileLines(prefix, generated, groups, addressable, tokens, address))
  {
    HeaderPlain(prefix, generated);
    GroupsLinesPlain(prefix, groups, addressable, address);
    TokensLinesPlain(prefix, tokens);
    FooterPlain(prefix);
  }

  // ---------- which contracts are listed ----------

  lemma {:induction false} FilterSnoc(names: seq<string>, name: string, addressable: seq<string>)
    ensures Filter(names + [name], addressable) ==
            Filter(names, addressable) + if name in addressable then [name] else []
  {
    if names == [] {
      assert names + [name] == [name] && [name][1..] == [];
    } else {
      assert (names + [name])[1..] == names[1..] + [name];
      FilterSnoc(names[1..], name, addressable);
    }
  }

  ghost predicate Increasing(at: seq<nat>) {
    forall i, j | 0 <= i < j < |at| :: at[i] < at[j]
  }

  /** The names that Filter keeps are those at certain places, in order: all places, and only those, where
      an addressable name stands. */
  lemma {:induction false} FilterExactly(names: seq<string>, addressable: seq<string>) returns (at: seq<nat>)
    ensures |at| == |Filter(names, addressable)| && Increasing(at)
    ensures forall i | 0 <= i < |at| :: at[i] < |names| && Filter(names, addressable)[i] == names[at[i]]
    ensures forall k: nat :: k in at <==> k < |names| && names[k] in addressable
  {
    at := [];
    if names != [] {
      var n := |names| - 1;
      at := FilterExactly(names[..n], addressable);
      FilterSnoc(names[..n], names[n], addressable);
      assert names == names[..n] + [names[n]];
      ghost var before := at;
      if names[n] in addressable {
        at := at + [n];
      }
      forall k: nat ensures k in at <==> k < |names| && names[k] in addressable {
        assert k in at <==> k in before || (k == n && names[n] in addressable);
        assert k in before <==> k < n && names[..n][k] in addressable;
      }
    }
  }

  predicate Earlier(a: (nat, nat), b: (nat, nat)) {
    a.0 < b.0 || (a.0 == b.0 && a.1 < b.1)
  }

  ghost predicate InOrder(at: seq<(nat, nat)>) {
    forall i, j | 0 <= i < j < |at| :: Earlier(at[i], at[j])
  }

  /** The places of one more group, behind those of the groups before. */
  lemma {:induction false} PlacedBehind(before: seq<(nat, nat)>, n: nat, last: seq<nat>) returns (at: seq<(nat, nat)>)
    requires InOrder(before) && Increasing(last) && forall i | 0 <= i < |before| :: before[i].0 < n
    ensures |at| == |before| + |last| && InOrder(at)
    ensures forall i | 0 <= i < |before| :: at[i] == before[i]
    ensures forall i | 0 <= i < |last| :: at[|before| + i] == (n, last[i])
    ensures forall p :: p in at <==> p in before || (p.0 == n && p.1 in last)
  {
    var placed: seq<(nat, nat)> := seq(|last|, i requires 0 <= i < |last| => (n, last[i]));
    at := before + placed;
    forall p ensures p in placed <==> p.0 == n && p.1 in last {
      if p.0 == n && p.1 in last {
        var i :| 0 <= i < |last| && last[i] == p.1;
        assert placed[i] == p;
      }
    }
  }

  /** The same across groups: group by group, and in each in its own order. */
  lemma {:induction false} ListedExactly(groups: seq<Group>, addressable: seq<string>) returns (at: seq<(nat, nat)>)
    ensures |at| == |Listed(groups, addressable)| && InOrder(at)
    ensures forall i | 0 <= i < |at| ::
              && at[i].0 < |groups| && at[i].1 < |groups[at[i].0].contracts|
              && Listed(groups, addressable)[i] == groups[at[i].0].contracts[at[i].1]
    ensures forall p: (nat, nat) ::
              p in at <==> p.0 < |groups| && p.1 < |groups[p.0].contracts| && groups[p.0].contracts[p.1] in addressable
  {
    at := [];
    if groups != [] {
      var n := |groups| - 1;
      var before := ListedExactly(groups[..n], addressable);
      var last := FilterExactly(groups[n].contracts, addressable);
      at := PlacedBehind(before, n, last);
      forall p: (nat, nat)
        ensures p in at <==>
                p.0 < |groups| && p.1 < |groups[p.0].contracts| && groups[p.0].contracts[p.1] in addressable
      {
        assert p in at <==> p in before || (p.0 == n && p.1 in last);
        assert p.0 < n ==> groups[..n][p.0] == groups[p.0];
      }
    }
  }

  lemma {:induction false} ListedMembers(groups: seq<Group>, addressable: seq<string>, n: string)
    ensures n in Listed(groups, addressable) <==>
            n in addressable && exists g :: 0 <= g < |groups| && n in groups[g].contracts
  {
    var listed := Listed(groups, addressable);
    var at := ListedExactly(groups, addressable);
    if n in listed {
      var i :| 0 <= i < |listed| && listed[i] == n;
      assert at[i] in at;
    }
    if n in addressable && exists g :: 0 <= g < |groups| && n in groups[g].contracts {
      var g :| 0 <= g < |groups| && n in groups[g].contracts;
      var k :| 0 <= k < |groups[g].contracts| && groups[g].contracts[k] == n;
      assert (g, k) in at;
      var i :| 0 <= i < |at| && at[i] == (g, k);
      assert listed[i] == n;
    }
  }

  /** An addressable contract of some group, under its key and with its address. */
  ghost predicate ContractEntry(prefix: string, groups: seq<Group>, addressable: seq<string>, address: string -> string,
                                e: Entry)
  {
    exists g, n :: 0 <= g < |groups| && n in groups[g].contracts && n in addressable &&
                   e == (prefix + CamelToScreamingSnake(n) + "_ADDRESS", address(n))
  }

  ghost predicate TokenEntry(prefix: string, tokens: seq<Token>, e: Entry) {
    exists t :: t in tokens && e == (prefix + t.symbol + "_ADDRESS", t.address)
  }

  /** The variables that every file defines. */
  function FixedEntries(prefix: string): seq<Entry> {
    [(prefix + "RPC_URL", "https://public-mainnet.rpcpaxeer.online/app"), (prefix + "CHAIN_ID", "125"),
     (prefix + "CHAIN_NAME", "Paxeer Network"), (prefix + "EXPLORER_URL", "https://paxscan.paxeer.app"),
     (prefix + "NATIVE_SYMBOL", "PAX"), (prefix + "WALLETCONNECT_PROJECT_ID", "YOUR_PROJECT_ID_HERE")]
  }

  /** Exactly these variables are defined: the fixed ones, five in front and one behind, the addressable
      contracts of the groups, and the tokens. */
  ghost predicate Defined(prefix: string, groups: seq<Group>, addressable: seq<string>, tokens: seq<Token>,
                          address: string -> string, entries: seq<Entry>)
  {
    && |entries| >= 6
    && entries[..5] == FixedEntries(prefix)[..5] && entries[|entries| - 1] == FixedEntries(prefix)[5]
    && forall e :: e in entries <==>
                   e in FixedEntries(prefix) || ContractEntry(prefix, groups, addressable, address, e) ||
                   TokenEntry(prefix, tokens, e)
  }

  lemma {:induction false} ContractEntriesExactly(prefix: string, groups: seq<Group>, addressable: seq<string>,
                                                  address: string -> string, e: Entry)
    ensures e in ContractEntries(prefix, Listed(groups, addressable), address) <==>
            ContractEntry(prefix, groups, addressable, address, e)
  {
    var names := Listed(groups, addressable);
    var entries := ContractEntries(prefix, names, address);
    if e in entries {
      var i :| 0 <= i < |entries| && entries[i] == e;
      ListedMembers(groups, addressable, names[i]);
      assert names[i] in names;
    }
    if ContractEntry(prefix, groups, addressable, address, e) {
      var g, n :| 0 <= g < |groups| && n in groups[g].contracts && n in addressable &&
                  e == (prefix + CamelToScreamingSnake(n) + "_ADDRESS", address(n));
      ListedMembers(groups, addressable, n);
      var i :| 0 <= i < |names| && names[i] == n;
      assert entries[i] == e;
    }
  }

  lemma {:induction false} TokenEntriesExactly(prefix: string, tokens: seq<Token>, e: Entry)
    ensures e in TokenEntries(prefix, tokens) <==> TokenEntry(prefix, tokens, e)
  {
    var entries := TokenEntries(prefix, tokens);
    if e in entries {
      var i :| 0 <= i < |entries| && entries[i] == e;
      assert tokens[i] in tokens;
    }
    if TokenEntry(prefix, tokens, e) {
      var t :| t in tokens && e == (prefix + t.symbol + "_ADDRESS", t.address);
      var i :| 0 <= i < |tokens| && tokens[i] == t;
      assert entries[i] == e;
    }
  }

  lemma {:induction false} NetworkIsFixed(prefix: string)
    ensures NetworkEntries(prefix) + [ProjectEntry(prefix)] == FixedEntries(prefix)
    ensures NetworkEntries(prefix) == FixedEntries(prefix)[..5]
  {
  }

  lemma {:induction false} AllEntriesExactly(prefix: string, groups: seq<Group>, addressable: seq<string>,
                                             tokens: seq<Token>, address: string -> string)
    ensures Defined(prefix, groups, addressable, tokens, address,
                    AllEntries(prefix, Listed(groups, addressable), tokens, address))
  {
    var names := Listed(groups, addressable);
    var entries := AllEntries(prefix, names, tokens, address);
    NetworkIsFixed(prefix);
    var network, project := NetworkEntries(prefix), [ProjectEntry(prefix)];
    forall e ensures e in entries <==>
                     e in FixedEntries(prefix) || ContractEntry(prefix, groups, addressable, address, e) ||
                     TokenEntry(prefix, tokens, e)
    {
      ContractEntriesExactly(prefix, groups, addressable, address, e);
      TokenEntriesExactly(prefix, tokens, e);
      assert e in FixedEntries(prefix) <==> e in network || e in project;
    }
  }

  /** The lines of the file: header, groups, tokens and footer; the listed contracts are assigned their
      addresses in group order, then the tokens, and nothing else is defined. */
  method BuildLines(prefix: string, generated: string, groups: seq<Group>, addressable: seq<string>,
                    tokens: seq<Token>, address: string -> string) returns (lines: seq<Line>)
    ensures lines != [] && lines == FileLines(prefix, generated, groups, addressable, tokens, address)
    ensures Assigned(lines) == AllEntries(prefix, Listed(groups, addressable), tokens, address)
    ensures Defined(prefix, groups, addressable, tokens, address, Assigned(lines))
  {
    lines := Header(prefix, generated);
    lines := PushGroups(lines, prefix, groups, addressable, address);
    lines := PushTokens(lines, prefix, tokens);
    lines := lines + Footer(prefix);
    AssignedFileLines(prefix, generated, groups, addressable, tokens, address);
    AllEntriesExactly(prefix, groups, addressable, tokens, address);
  }

  lemma {:induction false} PlainCommentsFit(lines: seq<Line>)
    requires CommentsPlain(lines)
    ensures AllFit(lines) <==> forall e | e in Assigned(lines) :: EntryFit(e)
  {
    forall i | 0 <= i < |lines|
      ensures if lines[i].Assign? then (lines[i].key, lines[i].value) in Assigned(lines) else LineFit(lines[i])
    {
      if lines[i].Comment? {
        ReadComment(lines[i].text);
      } else if lines[i].Assign? {
        AssignedIn(lines, (lines[i].key, lines[i].value));
      }
    }
    forall e | e in Assigned(lines) ensures Assign(e.0, e.1) in lines {
      AssignedIn(lines, e);
    }
  }

  /** The file, read back, defines exactly the variables meant, in order, if and only if no key or value
      breaks its line, no key holds an equals sign and none begins with a hash. */
  method BuildEnvVars(prefix: string, generated: string, groups: seq<Group>, addressable: seq<string>,
                      tokens: seq<Token>, address: string -> string) returns (text: string, ghost lines: seq<Line>)
    ensures text == Rendered(lines)
    ensures lines == FileLines(prefix, generated, groups, addressable, tokens, address)
    ensures Assigned(lines) == AllEntries(prefix, Listed(groups, addressable), tokens, address)
    ensures Defined(prefix, groups, addressable, tokens, address, Assigned(lines))
    ensures ReadEnv(text) == Assigned(lines) <==> AllFit(lines)
    ensures HeadingsPlain(generated, groups) ==>
              var entries := AllEntries(prefix, Listed(groups, addressable), tokens, address);
              ReadEnv(text) == entries <==> forall e | e in entries :: EntryFit(e)
  {
    var built := BuildLines(prefix, generated, groups, addressable, tokens, address);
    lines := built;
    JoinedIsRendered(built);
    text := Joined(built) + "\n";
    EnvRoundTripExactly(built);
    if HeadingsPlain(generated, groups) {
      FileLinesPlain(prefix, generated, groups, addressable, tokens, address);
      PlainCommentsFit(built);
    }
  }

  // ---------- no variable overwrites another ----------

  predicate Distinct(s: seq<string>) {
    forall i, j | 0 <= i < j < |s| :: s[i] != s[j]
  }

  function Keys(entries: seq<Entry>): (keys: seq<string>)
    ensures |keys| == |entries|
    ensures forall i | 0 <= i < |keys| :: keys[i] == entries[i].0
  {
    seq(|entries|, i requires 0 <= i < |entries| => entries[i].0)
  }

  /** The part of an address key that is up to the contracts and tokens. */
  function Stems(names: seq<string>, tokens: seq<Token>): seq<string> {
    seq(|names|, i requires 0 <= i < |names| => CamelToScreamingSnake(names[i]))
    + seq(|tokens|, i requires 0 <= i < |tokens| => tokens[i].symbol)
  }

  lemma {:induction false} AddressKeyInjective(prefix: string, a: string, b: string)
    ensures AddressKey(prefix, a) == AddressKey(prefix, b) <==> a == b
  {
    var x, y := AddressKey(prefix, a), AddressKey(prefix, b);
    assert |x| == |prefix| + |a| + 8 && |y| == |prefix| + |b| + 8;
    assert x[|prefix|..|x| - 8] == a && y[|prefix|..|y| - 8] == b;
  }

  /** A fixed key is no address key. */
  predicate Fixed(prefix: string, key: string) {
    |prefix| < |key| && key[|key| - 1] in {'L', 'D', 'E'}
  }

  lemma {:induction false} FixedKeys(prefix: string)
    ensures forall e | e in NetworkEntries(prefix) + [ProjectEntry(prefix)] :: Fixed(prefix, e.0)
    ensures Distinct(Keys(NetworkEntries(prefix) + [ProjectEntry(prefix)]))
  {
    var e := NetworkEntries(prefix) + [ProjectEntry(prefix)];
    assert |e[0].0| == |prefix| + 7 && |e[1].0| == |prefix| + 8 && |e[2].0| == |prefix| + 10;
    assert |e[3].0| == |prefix| + 12 && |e[4].0| == |prefix| + 13 && |e[5].0| == |prefix| + 24;
  }

  /** Where the keys of a file come from. */
  lemma {:induction false} KeyShapes(prefix: string, names: seq<string>, tokens: seq<Token>, address: string -> string)
    ensures var keys, stems := Keys(AllEntries(prefix, names, tokens, address)), Stems(names, tokens);
            var fixed := Keys(NetworkEntries(prefix) + [ProjectEntry(prefix)]);
            && |keys| == |stems| + 6 && |fixed| == 6
            && (forall i | 0 <= i < 5 :: keys[i] == fixed[i])
            && (forall i | 0 <= i < |stems| :: keys[5 + i] == AddressKey(prefix, stems[i]))
            && keys[|stems| + 5] == fixed[5]
  {
  }

  lemma {:induction false} FixedIsNoAddressKey(prefix: string, key: string, stem: string)
    requires Fixed(prefix, key)
    ensures key != AddressKey(prefix, stem)
  {
    var other := AddressKey(prefix, stem);
    assert other[|other| - 1] == 'S';
  }

  lemma {:induction false} FixedAndAddressKeysDistinct(prefix: string, fixed: seq<string>, stems: seq<string>,
                                                       keys: seq<string>)
    requires |fixed| == 6 && Distinct(fixed) && forall i | 0 <= i < 6 :: Fixed(prefix, fixed[i])
    requires |keys| == |stems| + 6
    requires forall i | 0 <= i < 5 :: keys[i] == fixed[i]
    requires forall i | 0 <= i < |stems| :: keys[5 + i] == AddressKey(prefix, stems[i])
    requires keys[|stems| + 5] == fixed[5]
    ensures Distinct(keys) <==> Distinct(stems)
  {
    var n := |stems|;
    forall i, j | 0 <= i < j < n ensures stems[i] == stems[j] <==> keys[5 + i] == keys[5 + j] {
      AddressKeyInjective(prefix, stems[i], stems[j]);
    }
    if Distinct(stems) {
      forall i, j | 0 <= i < j < n + 6 ensures keys[i] != keys[j] {
        if 5 <= i && j < n + 5 {
          AddressKeyInjective(prefix, stems[i - 5], stems[j - 5]);
          assert keys[5 + (i - 5)] == keys[i] && keys[5 + (j - 5)] == keys[j];
        } else if i < 5 <= j < n + 5 {
          assert keys[5 + (j - 5)] == keys[j];
          FixedIsNoAddressKey(prefix, fixed[i], stems[j - 5]);
        } else if 5 <= i {
          assert keys[5 + (i - 5)] == keys[i];
          FixedIsNoAddressKey(prefix, fixed[5], stems[i - 5]);
        }
      }
    }
  }

  /** The file defines no variable twice exactly when no two of the transformed contract names and
      token symbols coincide; the fixed variables never clash with anything. */
  lemma {:induction false} KeysDistinctExactly(prefix: string, names: seq<string>, tokens: seq<Token>,
                                               address: string -> string)
    ensures Distinct(Keys(AllEntries(prefix, names, tokens, address))) <==> Distinct(Stems(names, tokens))
  {
    var fixed := NetworkEntries(prefix) + [ProjectEntry(prefix)];
    FixedKeys(prefix);
    assert forall i | 0 <= i < |fixed| :: fixed[i] in fixed;
    KeyShapes(prefix, names, tokens, address);
    FixedAndAddressKeysDistinct(prefix, Keys(fixed), Stems(names, tokens),
                                Keys(AllEntries(prefix, names, tokens, address)));
  }

  /** Contract names without underscores that differ when case is ignored never clash. */
  lemma {:induction false} ContractKeysDistinct(prefix: string, names: seq<string>, address: string -> string)
    requires forall i | 0 <= i < |names| :: UnderscoreFree(names[i])
    requires forall i, j | 0 <= i < j < |names| :: !SameButForCase(names[i], names[j])
    ensures Distinct(Keys(AllEntries(prefix, names, [], address)))
  {
    var stems := Stems(names, []);
    forall i, j | 0 <= i < j < |stems| ensures stems[i] != stems[j] {
      SameKeyExactly(names[i], names[j]);
    }
    KeysDistinctExactly(prefix, names, [], address);
  }
}

/**
  The handshake of a session: the requests with which a miner subscribes and authorizes, the subscription sent on to the
  server, and the replay of the saved requests when a new process resumes the session after an upgrade.
*/
module StratumHandshake {
  import opened Options
  import opened Bits
  import EthereumStride
  import StratumSessionManager
  import Target

  /**
    A parameter of a request. `Options` is an object, of which only the text at
    "version-rolling.mask" is looked at.
  */
  datatype Param = Text(text: string) | Options(versionMask: Option<string>) | Other

  datatype Request = Request(rpcMethod: string, params: seq<Param>, worker: string)

  datatype ProtocolType =
    | ProtocolBitcoinStratum
    | ProtocolEthereumStratum
    | ProtocolEthereumStratumNiceHash
    | ProtocolEthereumProxy

  datatype AuthorizeStat = StatConnected | StatSubscribed | StatAuthorized

  datatype Names = Names(fullWorkerName: string, subaccountName: string, minerNameWithDot: string)

  datatype HandshakeError =
    DuplicateSubscribed | NeedSubscribed | TooFewParams | WorkerNameMustBeString | WorkerNameStartWrong

  /** `ExtraNonce` carries the two texts of a subscription result; they differ for NiceHash clients. */
  datatype Reply =
    | NoReply
    | Yes
    | ExtraNonce(sessionID: string, extraNonce: string)
    | VersionMask(mask: string)
    | Failed(error: HandshakeError)

  /** The fields of a session that the handshake determines. */
  datatype Handshake = Handshake(
    protocolType: ProtocolType,
    isBTCAgent: bool,
    isNiceHashClient: bool,
    jsonRPCVersion: nat,
    subscribeRequest: Option<Request>,
    authorizeRequest: Option<Request>,
    names: Names,
    versionMask: u32)

  /** What does not change: the chain, the ID text of the session, and how the directory spells a sub-account. */
  datatype Setting = Setting(
    chainType: StratumSessionManager.ChainType, sessionIDString: string, regularName: string -> string)

  // ---- Texts ----

  /** `strings.HasPrefix(strings.ToLower(s), prefix)`. */
  predicate LowerHasPrefix(s: string, prefix: string) {
    |prefix| <= |s| && forall i | 0 <= i < |prefix| :: StratumSessionManager.LowerChar(s[i]) == prefix[i]
  }

  const BTC_AGENT: string := "btccom-agent/"
  const NICE_HASH: string := "nicehash/"
  const ETHEREUM_STRATUM: string := "ethereumstratum/"

  predicate ParamHasPrefix(params: seq<Param>, i: nat, prefix: string) {
    i < |params| && params[i].Text? && LowerHasPrefix(params[i].text, prefix)
  }

  predicate AllowedInName(c: char) {
    'a' <= c <= 'z' || 'A' <= c <= 'Z' || '0' <= c <= '9' || c in "._:|^/-"
  }

  function FilterWorkerName(name: string): (r: string)
    ensures forall c | c in r :: AllowedInName(c)
  {
    if name == "" then ""
    else (if AllowedInName(name[0]) then [name[0]] else "") + FilterWorkerName(name[1..])
  }

  /** `strings.Index(name, ".")`. */
  function FirstDot(name: string): (i: int)
    ensures -1 <= i < |name|
    ensures i == -1 <==> '.' !in name
    ensures i >= 0 ==> name[i] == '.' && '.' !in name[..i]
  {
    if name == "" then -1
    else if name[0] == '.' then 0
    else
      var i := FirstDot(name[1..]);
      assert i >= 0 ==> name[..i + 1] == [name[0]] + name[1..][..i];
      if i == -1 then -1 else i + 1
  }

  function StripEthAddr(name: string): string {
    if FirstDot(name) == 42 && name[0] == '0' && (name[1] == 'x' || name[1] == 'X') then name[43..] else name
  }

  datatype Named = Good(names: Names) | Bad(error: HandshakeError, names: Names)

  /** The name in a request, filtered, with the worker field appended and an Ethereum address dropped. */
  function RequestedName(protocolType: ProtocolType, request: Request): string
    requires |request.params| >= 1 && request.params[0].Text?
  {
    var filtered := FilterWorkerName(request.params[0].text);
    if protocolType == ProtocolBitcoinStratum then filtered
    else StripEthAddr(if request.worker != "" then filtered + "." + FilterWorkerName(request.worker) else filtered)
  }

  /** The part of a name that the directory is asked about. */
  function AccountKey(name: string): string {
    if FirstDot(name) == -1 then name else name[..FirstDot(name)]
  }

  function NamesOf(name: string, account: string): Names {
    var miner := if FirstDot(name) == -1 then "" else name[FirstDot(name)..];
    Names(account + miner, account, miner)
  }

  /** `parseAuthorizeRequest`: the names in a request. A name that starts wrong has been stored when it is refused. */
  function ReadNames(setting: Setting, prior: Names, protocolType: ProtocolType, request: Request): Named {
    if |request.params| < 1 then Bad(TooFewParams, prior)
    else if !request.params[0].Text? then Bad(WorkerNameMustBeString, prior)
    else
      var name := RequestedName(protocolType, request);
      var account := setting.regularName(AccountKey(name));
      if account == "" then Bad(WorkerNameStartWrong, NamesOf(name, account)) else Good(NamesOf(name, account))
  }

  // ---- The miner's requests ----

  function DefaultProtocol(setting: Setting): ProtocolType {
    if setting.chainType.ChainTypeEthereum? then ProtocolEthereumProxy else ProtocolBitcoinStratum
  }

  /** A session when its protocol has been detected, or when it is about to be resumed. */
  function Start(setting: Setting): Handshake {
    Handshake(DefaultProtocol(setting), false, false, 1, None, None, Names("", "", ""), 0)
  }

  /** `extraNonce[0:4]` for a NiceHash client. */
  function ExtraNonceOf(setting: Setting, isNiceHashClient: bool): string {
    if isNiceHashClient && |setting.sessionIDString| >= 4 then setting.sessionIDString[..4] else setting.sessionIDString
  }

  function Subscribed(setting: Setting, h: Handshake, request: Request): Handshake {
    var agent := h.isBTCAgent || ParamHasPrefix(request.params, 0, BTC_AGENT);
    if !setting.chainType.ChainTypeEthereum? then h.(subscribeRequest := Some(request), isBTCAgent := agent)
    else
      h.(subscribeRequest := Some(request),
         isBTCAgent := agent,
         isNiceHashClient := h.isNiceHashClient || ParamHasPrefix(request.params, 0, NICE_HASH),
         protocolType :=
           if ParamHasPrefix(request.params, 0, BTC_AGENT) || ParamHasPrefix(request.params, 1, ETHEREUM_STRATUM)
           then ProtocolEthereumStratumNiceHash else ProtocolEthereumStratum)
  }

  function SubscribeReply(setting: Setting, h: Handshake): Reply {
    match h.protocolType
    case ProtocolBitcoinStratum => ExtraNonce(setting.sessionIDString, setting.sessionIDString)
    case ProtocolEthereumStratumNiceHash =>
      ExtraNonce(setting.sessionIDString, ExtraNonceOf(setting, h.isNiceHashClient))
    case _ => Yes
  }

  /** The subscription that an ETHProxy miner, who sends none, is given. */
  const ETH_PROXY_REQUEST: Request := Request("mining.subscribe", [Text("ETHProxy"), Text("ETHProxy/1.0.0")], "")

  datatype Handled = Handled(h: Handshake, stat: AuthorizeStat, reply: Reply)

  function Authorize(setting: Setting, h: Handshake, stat: AuthorizeStat, request: Request): Handled {
    if !stat.StatSubscribed? then Handled(h, stat, Failed(NeedSubscribed))
    else
      match ReadNames(setting, h.names, h.protocolType, request)
      case Bad(e, names) => Handled(h.(authorizeRequest := Some(request), names := names), stat, Failed(e))
      case Good(names) => Handled(h.(authorizeRequest := Some(request), names := names), StatAuthorized, NoReply)
  }

  /** The mask that a request asks for; one that cannot be read leaves the old mask. */
  function MaskAsked(request: Request, mask: u32): u32
    requires |request.params| >= 2
  {
    if request.params[1].Options? && request.params[1].versionMask.Some? then
      match Target.ParseUint32(request.params[1].versionMask.value)
      case Parsed(n) => n
      case Malformed => mask
    else mask
  }

  /** `parseConfigureRequest`. */
  function Configure(h: Handshake, stat: AuthorizeStat, request: Request): Handled {
    if |request.params| < 2 then Handled(h, stat, Failed(TooFewParams))
    else
      var mask := MaskAsked(request, h.versionMask);
      Handled(h.(versionMask := mask), stat, if mask != 0 then VersionMask(Target.CompactText(mask)) else NoReply)
  }

  /** `stratumHandleRequest`. */
  function Handle(setting: Setting, h: Handshake, stat: AuthorizeStat, request: Request): Handled {
    if request.rpcMethod == "mining.subscribe" then
      if !stat.StatConnected? then Handled(h, stat, Failed(DuplicateSubscribed))
      else
        var subscribed := Subscribed(setting, h, request);
        Handled(subscribed, StatSubscribed, SubscribeReply(setting, subscribed))
    else if request.rpcMethod == "eth_submitLogin" then
      if h.protocolType == ProtocolEthereumProxy
      then
        var proxy := h.(subscribeRequest := Some(ETH_PROXY_REQUEST), jsonRPCVersion := 2);
        Authorize(setting, proxy, StatSubscribed, request)
      else Authorize(setting, h, stat, request)
    else if request.rpcMethod == "mining.authorize" then Authorize(setting, h, stat, request)
    else if request.rpcMethod == "mining.configure" && h.protocolType == ProtocolBitcoinStratum
    then Configure(h, stat, request)
    else Handled(h, stat, NoReply)
  }

  /** The state after a miner's requests; the loop ends with the request that authorizes. */
  function HandleAll(setting: Setting, requests: seq<Request>): Handled {
    if requests == [] then Handled(Start(setting), StatConnected, NoReply)
    else
      var before := HandleAll(setting, requests[..|requests| - 1]);
      if before.stat.StatAuthorized? then before
      else Handle(setting, before.h, before.stat, requests[|requests| - 1])
  }

  // ---- The server ----

  function TextOr(params: seq<Param>, i: nat, missing: string): string {
    if i >= |params| then missing else if params[i].Text? then params[i].text else ""
  }

  /** `sendMiningSubscribeToServer` rewrites the saved subscription in place. */
  function SentRequest(setting: Setting, protocolType: ProtocolType, request: Request, idText: string): Request {
    var agent := Text(TextOr(request.params, 0, "stratumSwitcher"));
    request.(params :=
      if protocolType == ProtocolBitcoinStratum then [agent, Text(idText), Other]
      else [agent, Text(TextOr(request.params, 1, "Stratum")), Text(setting.sessionIDString), Other])
  }

  function Sent(setting: Setting, h: Handshake, idText: string): Handshake {
    if h.subscribeRequest.None? then h
    else h.(subscribeRequest := Some(SentRequest(setting, h.protocolType, h.subscribeRequest.value, idText)))
  }

  /** One subscription for each connection to a server. */
  function SentTimes(setting: Setting, h: Handshake, idText: string, n: nat): Handshake {
    if n == 0 then h else Sent(setting, SentTimes(setting, h, idText, n - 1), idText)
  }

  /** The result in a server's answer. */
  datatype Json = Bool(b: bool) | Str(text: string) | Array(items: seq<Json>) | OtherJson

  /** `Crash` is an index beyond the end of an array, which the code does not check. */
  datatype Verdict = Accepted | ParseFailed | Inconformity | Crash

  /** `stratumHandleServerSubscribeResponse`. */
  function CheckAnswer(setting: Setting, h: Handshake, result: Json): Verdict {
    match h.protocolType
    case ProtocolBitcoinStratum =>
      if !result.Array? || |result.items| < 2 || !result.items[1].Str? then ParseFailed
      else if result.items[1].text != setting.sessionIDString then Inconformity
      else Accepted
    case ProtocolEthereumStratumNiceHash =>
      if !result.Array? || |result.items| < 2 || !result.items[0].Array? then ParseFailed
      else if |result.items[0].items| < 2 then Crash
      else if !result.items[0].items[1].Str? || !result.items[1].Str? then ParseFailed
      else if result.items[0].items[1].text != setting.sessionIDString then Inconformity
      else if result.items[1].text != ExtraNonceOf(setting, h.isNiceHashClient) then Inconformity
      else Accepted
    case _ => if result == Bool(true) then Accepted else ParseFailed
  }

  /** The answer has texts where the session looks for its ID and its extranonce, or is a truth value without either. */
  predicate Shaped(protocolType: ProtocolType, result: Json) {
    match protocolType
    case ProtocolBitcoinStratum => result.Array? && |result.items| >= 2 && result.items[1].Str?
    case ProtocolEthereumStratumNiceHash =>
      && result.Array? && |result.items| >= 2 && result.items[1].Str?
      && result.items[0].Array? && |result.items[0].items| >= 2 && result.items[0].items[1].Str?
    case _ => result == Bool(true)
  }

  predicate SecondIs(result: Json, text: string) {
    result.Array? && |result.items| >= 2 && result.items[1] == Str(text)
  }

  // ---- What the requests mean ----

  /** The parameter is a text that, in lower case, begins with the prefix. */
  predicate Begins(params: seq<Param>, i: nat, prefix: string) {
    i < |params| && params[i].Text? && prefix <= StratumSessionManager.ToLower(params[i].text)
  }

  /** Which user agents and protocol names a subscription is recognised by. */
  lemma SubscriptionDetects(setting: Setting, request: Request)
    ensures var h := Subscribed(setting, Start(setting), request);
            && h.subscribeRequest == Some(request)
            && (h.isBTCAgent <==> Begins(request.params, 0, "btccom-agent/"))
            && (h.isNiceHashClient <==>
                setting.chainType.ChainTypeEthereum? && Begins(request.params, 0, "nicehash/"))
            && h.protocolType == (
                 if !setting.chainType.ChainTypeEthereum? then ProtocolBitcoinStratum
                 else if Begins(request.params, 0, "btccom-agent/") || Begins(request.params, 1, "ethereumstratum/")
                 then ProtocolEthereumStratumNiceHash
                 else ProtocolEthereumStratum)
  {
    PrefixIs(request.params, 0, "btccom-agent/");
    PrefixIs(request.params, 0, "nicehash/");
    PrefixIs(request.params, 1, "ethereumstratum/");
    hide ParamHasPrefix, Begins;
  }

  lemma PrefixIs(params: seq<Param>, i: nat, prefix: string)
    ensures ParamHasPrefix(params, i, prefix) <==> Begins(params, i, prefix)
  {
    if i < |params| && params[i].Text? {
      var lower := StratumSessionManager.ToLower(params[i].text);
      assert prefix <= lower <==> |prefix| <= |lower| && forall k | 0 <= k < |prefix| :: lower[k] == prefix[k];
    }
  }

  /** A miner on Ethereum is told the ID text, and a NiceHash miner its first two bytes. */
  lemma ToldExtraNonce(setting: Setting, sessionID: u32, h: Handshake)
    requires setting.sessionIDString == StratumSessionManager.SessionIDText(setting.chainType, sessionID)
    ensures h.protocolType == ProtocolBitcoinStratum ==>
              SubscribeReply(setting, h) == ExtraNonce(setting.sessionIDString, setting.sessionIDString)
    ensures setting.chainType.ChainTypeEthereum? && h.protocolType == ProtocolEthereumStratumNiceHash ==>
              SubscribeReply(setting, h) ==
              ExtraNonce(EthereumStride.SessionIDString(sessionID),
                         if h.isNiceHashClient then EthereumStride.TruncatedExtraNonce(sessionID)
                         else EthereumStride.SessionIDString(sessionID))
    ensures h.protocolType == ProtocolEthereumStratum || h.protocolType == ProtocolEthereumProxy ==>
              SubscribeReply(setting, h) == Yes
  {
  }

  /**
    What a server is sent: the miner's own user agent if it gave one, and the session's ID, as second parameter for
    Bitcoin protocols and as third, after the miner's protocol name, for Ethereum ones.
  */
  lemma ServerIsToldID(setting: Setting, h: Handshake, idText: string)
    requires h.subscribeRequest.Some?
    ensures var asked := h.subscribeRequest.value;
            && Sent(setting, h, idText).subscribeRequest.Some?
            && var request := Sent(setting, h, idText).subscribeRequest.value;
            && request.rpcMethod == asked.rpcMethod && |request.params| >= 3
            && (|asked.params| > 0 && asked.params[0].Text? ==> request.params[0] == asked.params[0])
            && (|asked.params| == 0 ==> request.params[0] == Text("stratumSwitcher"))
            && (h.protocolType == ProtocolBitcoinStratum ==> request.params[1] == Text(idText))
            && (h.protocolType != ProtocolBitcoinStratum ==>
                  && request.params[2] == Text(setting.sessionIDString)
                  && (|asked.params| > 1 && asked.params[1].Text? ==> request.params[1] == asked.params[1])
                  && (|asked.params| <= 1 ==> request.params[1] == Text("Stratum")))
  {
  }

  predicate Clean(name: string) {
    forall c | c in name :: AllowedInName(c)
  }

  /** Letters, digits, and the characters . _ : | ^ / - by their code points. */
  lemma AllowedCharacters(c: char)
    ensures AllowedInName(c) <==>
            var i := c as int;
            || 97 <= i <= 122 || 65 <= i <= 90 || 48 <= i <= 57
            || i == 46 || i == 95 || i == 58 || i == 124 || i == 94 || i == 47 || i == 45
  {
  }

  lemma {:induction false} FilterKeepsClean(name: string)
    requires Clean(name)
    ensures FilterWorkerName(name) == name
  {
    if name != "" {
      assert name[0] in name;
      FilterKeepsClean(name[1..]);
    }
  }

  /** Filtering leaves out exactly the characters that are not allowed. */
  lemma {:induction false} FilterDrops(before: string, c: char, after: string)
    ensures FilterWorkerName(before + [c] + after) ==
            FilterWorkerName(before) + (if AllowedInName(c) then [c] else "") + FilterWorkerName(after)
  {
    if before == "" {
      assert before + [c] + after == [c] + after;
    } else {
      assert (before + [c] + after)[1..] == before[1..] + [c] + after;
      FilterDrops(before[1..], c, after);
    }
  }

  lemma {:induction false} FirstDotAt(account: string, rest: string)
    requires '.' !in account
    ensures FirstDot(account + "." + rest) == |account|
  {
    var name := account + "." + rest;
    assert name[|account|] == '.';
    assert '.' in name;
    assert forall i | 0 <= i < |account| :: name[i] == account[i];
  }

  /** The parts of a name with and without a dot. */
  lemma NameParts(account: string, miner: string, found: string)
    requires '.' !in account
    ensures AccountKey(account + "." + miner) == account && AccountKey(account) == account
    ensures NamesOf(account + "." + miner, found) == Names(found + ("." + miner), found, "." + miner)
    ensures NamesOf(account, found) == Names(found + "", found, "")
  {
    FirstDotAt(account, miner);
    var name := account + "." + miner;
    assert name[..|account|] == account && name[|account|..] == "." + miner;
    hide FirstDot;
  }

  /** What the directory makes of an account, before a miner's own part. */
  function Registered(setting: Setting, account: string, minerWithDot: string): Names {
    Names(setting.regularName(account) + minerWithDot, setting.regularName(account), minerWithDot)
  }

  /** A name that is clean as it stands. */
  lemma NameReadAs(setting: Setting, prior: Names, protocol: ProtocolType, request: Request, name: string)
    requires |request.params| > 0 && request.params[0].Text?
    requires RequestedName(protocol, request) == name && setting.regularName(AccountKey(name)) != ""
    ensures ReadNames(setting, prior, protocol, request) == Good(NamesOf(name, setting.regularName(AccountKey(name))))
  {
    hide RequestedName, NamesOf, AccountKey;
  }

  /** A name "account.miner" without a worker field gives that account and ".miner". */
  lemma NamesInFirst(
    setting: Setting, prior: Names, protocol: ProtocolType, request: Request, account: string, miner: string)
    requires Clean(account) && Clean(miner) && '.' !in account && setting.regularName(account) != ""
    requires |account| != 42 && (request.worker == "" || protocol == ProtocolBitcoinStratum)
    requires |request.params| > 0 && request.params[0] == Text(account + "." + miner)
    ensures ReadNames(setting, prior, protocol, request) == Good(Registered(setting, account, "." + miner))
  {
    var name := account + "." + miner;
    FilterKeepsClean(name);
    FirstDotAt(account, miner);
    hide FilterWorkerName, FirstDot;
    assert RequestedName(protocol, request) == name;
    NameParts(account, miner, setting.regularName(account));
    hide *;
    NameReadAs(setting, prior, protocol, request, name);
    NamesRegistered(setting, account, "." + miner);
  }

  lemma NamesRegistered(setting: Setting, account: string, minerWithDot: string)
    ensures Registered(setting, account, minerWithDot) ==
            Names(setting.regularName(account) + minerWithDot, setting.regularName(account), minerWithDot)
  {
  }

  /** A name without a dot and without a worker field has no miner. */
  lemma NamesWithoutDot(setting: Setting, prior: Names, protocol: ProtocolType, request: Request, account: string)
    requires Clean(account) && '.' !in account && setting.regularName(account) != ""
    requires request.worker == "" || protocol == ProtocolBitcoinStratum
    requires |request.params| > 0 && request.params[0] == Text(account)
    ensures ReadNames(setting, prior, protocol, request) == Good(Registered(setting, account, ""))
  {
    FilterKeepsClean(account);
    hide FilterWorkerName, FirstDot;
    assert RequestedName(protocol, request) == account;
    NameParts(account, "", setting.regularName(account));
    hide *;
    NameReadAs(setting, prior, protocol, request, account);
    NamesRegistered(setting, account, "");
  }

  /** With a worker field, on another chain than Bitcoin's, the field is the miner. */
  lemma NamesInWorker(setting: Setting, prior: Names, protocol: ProtocolType, request: Request, account: string)
    requires Clean(account) && Clean(request.worker) && '.' !in account && setting.regularName(account) != ""
    requires |account| != 42 && request.worker != "" && protocol != ProtocolBitcoinStratum
    requires |request.params| > 0 && request.params[0] == Text(account)
    ensures ReadNames(setting, prior, protocol, request) == Good(Registered(setting, account, "." + request.worker))
  {
    var name := account + "." + request.worker;
    FilterKeepsClean(account);
    FilterKeepsClean(request.worker);
    FirstDotAt(account, request.worker);
    hide FilterWorkerName, FirstDot;
    assert RequestedName(protocol, request) == name;
    NameParts(account, request.worker, setting.regularName(account));
    hide *;
    NameReadAs(setting, prior, protocol, request, name);
    NamesRegistered(setting, account, "." + request.worker);
  }

  /** An Ethereum address of 42 characters in front of the name is dropped, on another chain than Bitcoin's. */
  lemma NamesAfterAddress(
    setting: Setting, prior: Names, protocol: ProtocolType, request: Request,
    address: string, account: string, miner: string)
    requires Clean(address) && '.' !in address && |address| == 42 && "0x" <= address
    requires Clean(account) && Clean(miner) && '.' !in account && setting.regularName(account) != ""
    requires request.worker == "" && protocol != ProtocolBitcoinStratum
    requires |request.params| > 0 && request.params[0] == Text(address + "." + (account + "." + miner))
    ensures ReadNames(setting, prior, protocol, request) == Good(Registered(setting, account, "." + miner))
  {
    var name := account + "." + miner;
    var whole := address + "." + name;
    FilterKeepsClean(whole);
    FirstDotAt(address, name);
    AddressStripped(address, name);
    hide FilterWorkerName, FirstDot, StripEthAddr;
    assert RequestedName(protocol, request) == name;
    NameParts(account, miner, setting.regularName(account));
    hide *;
    NameReadAs(setting, prior, protocol, request, name);
    NamesRegistered(setting, account, "." + miner);
  }

  lemma AddressStripped(address: string, name: string)
    requires '.' !in address && |address| == 42 && "0x" <= address
    ensures StripEthAddr(address + "." + name) == name
  {
    FirstDotAt(address, name);
    var whole := address + "." + name;
    assert address[0] == '0' && address[1] == 'x';
    assert whole[0] == '0' && whole[1] == 'x' && whole[43..] == name;
    hide FirstDot;
  }

  /**
    A login without a subscription, on Ethereum: the subscription is made up for the miner, servers are told of it, and
    the answers are in JSON-RPC 2 whether or not the name is accepted. On any other chain it comes too early.
  */
  lemma LoginSubscribes(setting: Setting, request: Request, idText: string)
    requires request.rpcMethod == "eth_submitLogin"
    ensures var r := Handle(setting, Start(setting), StatConnected, request);
            if !setting.chainType.ChainTypeEthereum?
            then r == Handled(Start(setting), StatConnected, Failed(NeedSubscribed))
            else
              && r.h.protocolType == ProtocolEthereumProxy && r.h.jsonRPCVersion == 2
              && r.h.subscribeRequest ==
                 Some(Request("mining.subscribe", [Text("ETHProxy"), Text("ETHProxy/1.0.0")], ""))
              && Sent(setting, r.h, idText).subscribeRequest.value.params ==
                 [Text("ETHProxy"), Text("ETHProxy/1.0.0"), Text(setting.sessionIDString), Other]
              && r.h.authorizeRequest == Some(request)
              && (r.stat == StatAuthorized <==>
                    && |request.params| > 0 && request.params[0].Text?
                    && setting.regularName(AccountKey(RequestedName(ProtocolEthereumProxy, request))) != "")
  {
    hide RequestedName, AccountKey, NamesOf;
  }

  /** Which requests are refused, and why. A refused request logs nobody in. */
  lemma RefusedBecause(setting: Setting, h: Handshake, stat: AuthorizeStat, request: Request)
    ensures var r := Handle(setting, h, stat, request);
            var login := request.rpcMethod in {"mining.authorize", "eth_submitLogin"};
            var proxy := request.rpcMethod == "eth_submitLogin" && h.protocolType == ProtocolEthereumProxy;
            var early := stat != StatSubscribed && !proxy;
            var configure := h.protocolType == ProtocolBitcoinStratum && request.rpcMethod == "mining.configure";
            && (r.reply == Failed(DuplicateSubscribed) <==>
                request.rpcMethod == "mining.subscribe" && stat != StatConnected)
            && (r.reply == Failed(NeedSubscribed) <==> login && early)
            && (r.reply == Failed(TooFewParams) <==>
                (login && !early && request.params == []) || (configure && |request.params| < 2))
            && (r.reply == Failed(WorkerNameMustBeString) <==>
                login && !early && request.params != [] && !request.params[0].Text?)
            && (r.reply == Failed(WorkerNameStartWrong) <==>
                && login && !early && request.params != [] && request.params[0].Text?
                && setting.regularName(AccountKey(RequestedName(h.protocolType, request))) == "")
            && (r.reply.Failed? && stat != StatAuthorized ==> r.stat != StatAuthorized)
            && (!login && !configure && request.rpcMethod != "mining.subscribe" ==> r == Handled(h, stat, NoReply))
  {
    hide RequestedName, AccountKey, NamesOf, Subscribed, MaskAsked;
  }

  /** A configure request for a mask in eight digits leaves that mask and confirms it, unless it is zero. */
  lemma ConfigureSetsMask(h: Handshake, stat: AuthorizeStat, first: Param, mask: u32, worker: string)
    ensures Configure(h, stat, Request("mining.configure", [first, Options(Some(Target.CompactText(mask)))], worker)) ==
            Handled(h.(versionMask := mask), stat, if mask == 0 then NoReply else VersionMask(Target.CompactText(mask)))
  {
    Target.CompactTextReads(mask);
    hide Target.CompactText, Target.ParseUint32;
  }

  /** Whatever else the second parameter is, the mask stays. */
  lemma ConfigureKeepsMask(h: Handshake, stat: AuthorizeStat, request: Request)
    requires |request.params| < 2 || !request.params[1].Options? || request.params[1].versionMask.None?
             || Target.ParseUint32(request.params[1].versionMask.value).Malformed?
    ensures Configure(h, stat, request).h == h
    ensures Configure(h, stat, request).reply == Failed(TooFewParams) <==> |request.params| < 2
  {
  }

  // ---- Invariant over every sequence of requests ----

  /** The protocol fields are those that the saved subscription alone determines, or those of an ETHProxy miner. */
  ghost predicate FromSubscription(setting: Setting, h: Handshake) {
    && h.subscribeRequest.Some? && h.subscribeRequest.value.rpcMethod == "mining.subscribe"
    && if h.protocolType == ProtocolEthereumProxy
       then setting.chainType.ChainTypeEthereum? && h.jsonRPCVersion == 2 && !h.isBTCAgent && !h.isNiceHashClient
            && LikeEthProxy(h.subscribeRequest.value.params)
       else
         var s := Subscribed(setting, Start(setting), h.subscribeRequest.value);
         h.jsonRPCVersion == 1 && h.protocolType == s.protocolType
         && h.isBTCAgent == s.isBTCAgent && h.isNiceHashClient == s.isNiceHashClient
  }

  predicate LikeEthProxy(params: seq<Param>) {
    |params| >= 2 && params[0] == Text("ETHProxy") && params[1] == Text("ETHProxy/1.0.0")
  }

  ghost predicate Inv(setting: Setting, h: Handshake, stat: AuthorizeStat) {
    match stat
    case StatConnected => h == Start(setting).(versionMask := h.versionMask)
    case StatSubscribed => FromSubscription(setting, h)
    case StatAuthorized =>
      && FromSubscription(setting, h)
      && h.authorizeRequest.Some?
      && h.authorizeRequest.value.rpcMethod in {"mining.authorize", "eth_submitLogin"}
      && forall prior :: ReadNames(setting, prior, h.protocolType, h.authorizeRequest.value) == Good(h.names)
  }

  lemma GoodIgnoresOldNames(setting: Setting, prior: Names, older: Names, protocolType: ProtocolType, request: Request)
    requires ReadNames(setting, prior, protocolType, request).Good?
    ensures ReadNames(setting, older, protocolType, request) == ReadNames(setting, prior, protocolType, request)
  {
  }

  lemma HandleKeepsInv(setting: Setting, h: Handshake, stat: AuthorizeStat, request: Request)
    requires Inv(setting, h, stat)
    ensures var r := Handle(setting, h, stat, request); Inv(setting, r.h, r.stat)
  {
    hide ReadNames, LowerHasPrefix;
    var r := Handle(setting, h, stat, request);
    if && request.rpcMethod in {"mining.authorize", "eth_submitLogin"}
       && r.stat.StatAuthorized? && (!stat.StatAuthorized? || r.h != h)
    {
      forall prior ensures ReadNames(setting, prior, r.h.protocolType, request) == Good(r.h.names) {
        GoodIgnoresOldNames(setting, h.names, prior, h.protocolType, request);
      }
    }
  }

  lemma {:induction false} AlwaysInv(setting: Setting, requests: seq<Request>)
    ensures var r := HandleAll(setting, requests); Inv(setting, r.h, r.stat)
  {
    if requests != [] {
      var before := HandleAll(setting, requests[..|requests| - 1]);
      AlwaysInv(setting, requests[..|requests| - 1]);
      if !before.stat.StatAuthorized? {
        HandleKeepsInv(setting, before.h, before.stat, requests[|requests| - 1]);
      }
    }
  }

  lemma SentKeepsInv(setting: Setting, h: Handshake, stat: AuthorizeStat, idText: string)
    requires Inv(setting, h, stat) && !stat.StatConnected?
    ensures Inv(setting, Sent(setting, h, idText), stat)
  {
    var before, after := h.subscribeRequest.value.params, Sent(setting, h, idText).subscribeRequest.value.params;
    SamePrefixes(before, after, 0, "stratumSwitcher");
    if h.protocolType != ProtocolBitcoinStratum {
      SamePrefixes(before, after, 1, "Stratum");
    }
    hide ReadNames, LowerHasPrefix, TextOr;
  }

  /** Texts stay, and what replaces a missing or other parameter announces neither an agent nor a NiceHash client. */
  lemma SamePrefixes(before: seq<Param>, after: seq<Param>, i: nat, missing: string)
    requires i < |after| && after[i] == Text(TextOr(before, i, missing)) && missing in {"stratumSwitcher", "Stratum"}
    ensures i == 0 ==> ParamHasPrefix(after, i, BTC_AGENT) == ParamHasPrefix(before, i, BTC_AGENT)
    ensures i == 0 ==> ParamHasPrefix(after, i, NICE_HASH) == ParamHasPrefix(before, i, NICE_HASH)
    ensures i == 1 && missing == "Stratum" ==>
              ParamHasPrefix(after, i, ETHEREUM_STRATUM) == ParamHasPrefix(before, i, ETHEREUM_STRATUM)
  {
    assert StratumSessionManager.LowerChar(missing[0]) == 's';
  }

  lemma {:induction false} SentTimesKeepsInv(
    setting: Setting, h: Handshake, stat: AuthorizeStat, idText: string, n: nat)
    requires Inv(setting, h, stat) && !stat.StatConnected?
    ensures Inv(setting, SentTimes(setting, h, idText, n), stat)
    ensures SentTimes(setting, h, idText, n) ==
            h.(subscribeRequest := SentTimes(setting, h, idText, n).subscribeRequest)
  {
    if n > 0 {
      SentTimesKeepsInv(setting, h, stat, idText, n - 1);
      SentKeepsInv(setting, SentTimes(setting, h, idText, n - 1), stat, idText);
    }
  }

  // ---- Resuming after an upgrade ----

  /** What a process leaves for the next one. */
  datatype Saved = Saved(
    subscribeRequest: Option<Request>, authorizeRequest: Option<Request>, versionMask: u32, miningCoin: string)

  function SavedFrom(h: Handshake, miningCoin: string): Saved {
    Saved(h.subscribeRequest, h.authorizeRequest, h.versionMask, miningCoin)
  }

  /**
    `Resume`: the saved requests are handled again, and `found`, the coin that the user's node now names, is compared
    with the saved one. `None` when the session is stopped instead.
  */
  function Replayed(setting: Setting, saved: Saved, found: Option<string>): Option<Handshake> {
    var start := Start(setting).(versionMask := saved.versionMask);
    var first :=
      if saved.subscribeRequest.Some? then Handle(setting, start, StatConnected, saved.subscribeRequest.value)
      else Handled(start, StatConnected, NoReply);
    if first.reply.Failed? then None
    else
      var second :=
        if saved.authorizeRequest.Some? then Handle(setting, first.h, first.stat, saved.authorizeRequest.value)
        else first;
      if second.reply.Failed? || !second.stat.StatAuthorized? || found != Some(saved.miningCoin) then None
      else Some(second.h)
  }

  /** What a resumed session is, in terms of the session that was saved. */
  function AfterUpgrade(h: Handshake): Handshake {
    if h.protocolType == ProtocolEthereumProxy
    then h.(protocolType := ProtocolEthereumStratum, jsonRPCVersion := 1) else h
  }

  /** The sub-account that the directory of `later` names for an authorized session. */
  function AccountNow(later: Setting, h: Handshake): string
    requires NameWasText(h)
  {
    later.regularName(AccountKey(RequestedName(h.protocolType, h.authorizeRequest.value)))
  }

  predicate NameWasText(h: Handshake) {
    && h.authorizeRequest.Some?
    && |h.authorizeRequest.value.params| >= 1 && h.authorizeRequest.value.params[0].Text?
  }

  function NamesNow(later: Setting, h: Handshake): Names
    requires NameWasText(h)
  {
    NamesOf(RequestedName(h.protocolType, h.authorizeRequest.value), AccountNow(later, h))
  }

  /** The same setting, but for a directory that may have changed. */
  predicate SameSession(setting: Setting, later: Setting) {
    later.chainType == setting.chainType && later.sessionIDString == setting.sessionIDString
  }

  lemma ReplayRestores(setting: Setting, later: Setting, h: Handshake, miningCoin: string, found: Option<string>)
    requires Inv(setting, h, StatAuthorized) && SameSession(setting, later)
    ensures NameWasText(h)
    ensures Replayed(later, SavedFrom(h, miningCoin), found) ==
            if found == Some(miningCoin) && AccountNow(later, h) != ""
            then Some(AfterUpgrade(h).(names := NamesNow(later, h))) else None
  {
    var start := Start(later).(versionMask := h.versionMask);
    var subscribed := Subscribed(later, start, h.subscribeRequest.value);
    NamesRead(setting, h);
    ReplaySubscribes(setting, later, h, subscribed);
    ReplayAuthorizes(setting, later, h, subscribed);
    hide Handle, Inv, Subscribed, SubscribeReply, NamesNow, AccountNow, NameWasText;
  }

  /** An authorized session has the names that its own setting gave for its request. */
  lemma NamesRead(setting: Setting, h: Handshake)
    requires Inv(setting, h, StatAuthorized)
    ensures NameWasText(h) && AccountNow(setting, h) != "" && h.names == NamesNow(setting, h)
  {
    assert ReadNames(setting, h.names, h.protocolType, h.authorizeRequest.value) == Good(h.names);
    hide FromSubscription;
  }

  lemma ReplaySubscribes(setting: Setting, later: Setting, h: Handshake, subscribed: Handshake)
    requires Inv(setting, h, StatAuthorized) && SameSession(setting, later)
    requires subscribed == Subscribed(later, Start(later).(versionMask := h.versionMask), h.subscribeRequest.value)
    ensures Handle(later, Start(later).(versionMask := h.versionMask), StatConnected, h.subscribeRequest.value) ==
            Handled(subscribed, StatSubscribed, SubscribeReply(later, subscribed))
    ensures !SubscribeReply(later, subscribed).Failed?
    ensures subscribed.(authorizeRequest := h.authorizeRequest, names := h.names) == AfterUpgrade(h)
  {
    hide ReadNames;
  }

  /** The names depend on the protocol only as far as it is Bitcoin's or not. */
  lemma ReplayAuthorizes(setting: Setting, later: Setting, h: Handshake, subscribed: Handshake)
    requires Inv(setting, h, StatAuthorized) && NameWasText(h)
    requires subscribed.protocolType == AfterUpgrade(h).protocolType
    ensures var names := NamesNow(later, h);
            Handle(later, subscribed, StatSubscribed, h.authorizeRequest.value) ==
            if AccountNow(later, h) != ""
            then Handled(subscribed.(authorizeRequest := h.authorizeRequest, names := names), StatAuthorized, NoReply)
            else Handled(subscribed.(authorizeRequest := h.authorizeRequest, names := names), StatSubscribed,
                         Failed(WorkerNameStartWrong))
  {
    hide FromSubscription, NamesOf, AccountKey;
  }

  /**
    After any requests that authorize a miner and any number of connections to servers, an upgrade resumes the session
    unless its coin has changed or the directory no longer names its sub-account. It is then as it was, exactly when the
    directory names the same sub-account and the miner is not an ETHProxy one: that one is taken for an Ethereum Stratum
    miner with JSON-RPC 1.
  */
  lemma UpgradeRestoresIff(
    setting: Setting, later: Setting, requests: seq<Request>, idText: string, n: nat, miningCoin: string,
    found: Option<string>)
    returns (h: Handshake)
    requires HandleAll(setting, requests).stat.StatAuthorized? && SameSession(setting, later)
    ensures h == SentTimes(setting, HandleAll(setting, requests).h, idText, n)
    ensures NameWasText(h) && h.names.subaccountName == AccountNow(setting, h) != ""
    ensures Replayed(later, SavedFrom(h, miningCoin), found) ==
            if found == Some(miningCoin) && AccountNow(later, h) != ""
            then Some(AfterUpgrade(h).(names := NamesNow(later, h))) else None
    ensures Replayed(later, SavedFrom(h, miningCoin), found) == Some(h) <==>
            && found == Some(miningCoin) && AccountNow(later, h) == h.names.subaccountName
            && h.protocolType != ProtocolEthereumProxy
  {
    AlwaysInv(setting, requests);
    SentTimesKeepsInv(setting, HandleAll(setting, requests).h, StatAuthorized, idText, n);
    h := SentTimes(setting, HandleAll(setting, requests).h, idText, n);
    NamesRead(setting, h);
    ReplayRestores(setting, later, h, miningCoin, found);
    hide Inv, HandleAll, SentTimes, Replayed, FirstDot, RequestedName, AccountKey, NameWasText;
  }

  /** Such a miner: one that logs in without subscribing. */
  lemma EthProxyIsNotRestored() returns (setting: Setting, requests: seq<Request>, h: Handshake)
    ensures HandleAll(setting, requests) == Handled(h, StatAuthorized, NoReply)
    ensures h.protocolType == ProtocolEthereumProxy && h.jsonRPCVersion == 2
    ensures Replayed(setting, SavedFrom(h, "eth"), Some("eth")) ==
            Some(h.(protocolType := ProtocolEthereumStratum, jsonRPCVersion := 1))
  {
    setting := Setting(StratumSessionManager.ChainTypeEthereum, "010080", (s: string) => s);
    var request := Request("eth_submitLogin", [Text("a")], "");
    requests := [request];
    assert requests[..0] == [];
    assert HandleAll(setting, []) == Handled(Start(setting), StatConnected, NoReply);
    assert FilterWorkerName("a") == "a" && FirstDot("a") == -1;
    h := HandleAll(setting, requests).h;
    var g := UpgradeRestoresIff(setting, setting, requests, "", 0, "eth", Some("eth"));
  }

  // ---- Miner and server agree on the extranonce ----

  lemma {:induction false} ReplyIsKept(setting: Setting, requests: seq<Request>)
    requires HandleAll(setting, requests).reply.ExtraNonce?
    ensures !HandleAll(setting, requests).stat.StatConnected?
    ensures HandleAll(setting, requests).reply == SubscribeReply(setting, HandleAll(setting, requests).h)
  {
    hide ReadNames;
    if requests != [] {
      var before := HandleAll(setting, requests[..|requests| - 1]);
      if before.stat.StatAuthorized? {
        ReplyIsKept(setting, requests[..|requests| - 1]);
      }
    }
  }

  lemma HandleKeepsProtocol(setting: Setting, h: Handshake, stat: AuthorizeStat, request: Request)
    requires !stat.StatConnected?
    ensures var r := Handle(setting, h, stat, request);
            !r.stat.StatConnected? && r.h.protocolType == h.protocolType && r.h.isNiceHashClient == h.isNiceHashClient
  {
    hide ReadNames;
  }

  lemma LastRequestKeepsProtocol(setting: Setting, requests: seq<Request>)
    requires requests != [] && !HandleAll(setting, requests[..|requests| - 1]).stat.StatConnected?
    ensures !HandleAll(setting, requests).stat.StatConnected?
    ensures SameProtocol(HandleAll(setting, requests).h, HandleAll(setting, requests[..|requests| - 1]).h)
  {
    var before := HandleAll(setting, requests[..|requests| - 1]);
    hide Handle;
    HandleKeepsProtocol(setting, before.h, before.stat, requests[|requests| - 1]);
  }

  predicate SameProtocol(g: Handshake, h: Handshake) {
    g.protocolType == h.protocolType && g.isNiceHashClient == h.isNiceHashClient
  }

  /** Once a miner has subscribed, the protocol stays. */
  lemma {:induction false} ProtocolStays(setting: Setting, requests: seq<Request>, i: nat)
    requires i <= |requests| && !HandleAll(setting, requests[..i]).stat.StatConnected?
    ensures !HandleAll(setting, requests).stat.StatConnected?
    ensures SameProtocol(HandleAll(setting, requests).h, HandleAll(setting, requests[..i]).h)
  {
    hide HandleAll, Handle;
    if i == |requests| {
      assert requests[..i] == requests;
    } else {
      var before := requests[..|requests| - 1];
      assert before[..i] == requests[..i];
      ProtocolStays(setting, before, i);
      LastRequestKeepsProtocol(setting, requests);
    }
  }

  /**
    A server's answer is accepted exactly when it carries the extranonce that the miner was told, and for NiceHash the
    session ID too: whatever the miner sends afterwards, however often the server is switched, and after an upgrade.
  */
  lemma ExtraNonceAgrees(setting: Setting, requests: seq<Request>, i: nat, idText: string, n: nat, result: Json)
    requires i <= |requests| && HandleAll(setting, requests[..i]).reply.ExtraNonce?
    ensures var reply := HandleAll(setting, requests[..i]).reply;
            var h := SentTimes(setting, HandleAll(setting, requests).h, idText, n);
            && (CheckAnswer(setting, h, result) == Accepted <==>
                && SecondIs(result, reply.extraNonce)
                && (h.protocolType == ProtocolBitcoinStratum || SecondIs(result.items[0], reply.sessionID)))
            && CheckAnswer(setting, AfterUpgrade(h), result) == CheckAnswer(setting, h, result)
  {
    ReplyIsKept(setting, requests[..i]);
    ProtocolStays(setting, requests, i);
    AlwaysInv(setting, requests);
    var r := HandleAll(setting, requests);
    SentTimesKeepsInv(setting, r.h, r.stat, idText, n);
    AnswerMatchesReply(setting, HandleAll(setting, requests[..i]).h, SentTimes(setting, r.h, idText, n), result);
    hide HandleAll, SentTimes, Inv, CheckAnswer, SubscribeReply, SecondIs;
  }

  lemma AnswerMatchesReply(setting: Setting, g: Handshake, h: Handshake, result: Json)
    requires SameProtocol(h, g) && SubscribeReply(setting, g).ExtraNonce?
    ensures var reply := SubscribeReply(setting, g);
            CheckAnswer(setting, h, result) == Accepted <==>
              && SecondIs(result, reply.extraNonce)
              && (h.protocolType == ProtocolBitcoinStratum || SecondIs(result.items[0], reply.sessionID))
    ensures CheckAnswer(setting, AfterUpgrade(h), result) == CheckAnswer(setting, h, result)
  {
  }

  /** Why an answer is not accepted. */
  lemma NotAcceptedBecause(setting: Setting, h: Handshake, result: Json)
    ensures var verdict := CheckAnswer(setting, h, result);
            && (Shaped(h.protocolType, result) <==> verdict == Accepted || verdict == Inconformity)
            && (verdict == Crash <==>
                && h.protocolType == ProtocolEthereumStratumNiceHash && result.Array? && |result.items| >= 2
                && result.items[0].Array? && |result.items[0].items| < 2)
            && (h.protocolType == ProtocolEthereumStratum || h.protocolType == ProtocolEthereumProxy ==>
                  verdict == (if result == Bool(true) then Accepted else ParseFailed))
  {
  }

  // ---- The session's fields ----

  class HandshakeFields {
    const setting: Setting
    var protocolType: ProtocolType
    var isBTCAgent: bool
    var isNiceHashClient: bool
    var jsonRPCVersion: nat
    var stratumSubscribeRequest: Option<Request>
    var stratumAuthorizeRequest: Option<Request>
    var names: Names
    var versionMask: u32

    function State(): Handshake
      reads this
    {
      Handshake(protocolType, isBTCAgent, isNiceHashClient, jsonRPCVersion,
                stratumSubscribeRequest, stratumAuthorizeRequest, names, versionMask)
    }

    constructor (setting: Setting)
      ensures this.setting == setting && State() == Start(setting)
    {
      this.setting := setting;
      protocolType := DefaultProtocol(setting);
      isBTCAgent, isNiceHashClient, jsonRPCVersion := false, false, 1;
      stratumSubscribeRequest, stratumAuthorizeRequest := None, None;
      names := Names("", "", "");
      versionMask := 0;
    }

    method ParseSubscribeRequest(request: Request) returns (reply: Reply)
      requires setting.chainType.ChainTypeEthereum? || protocolType == ProtocolBitcoinStratum
      modifies this
      ensures State() == Subscribed(setting, old(State()), request)
      ensures reply == SubscribeReply(setting, State())
    {
      stratumSubscribeRequest := Some(request);
      if !setting.chainType.ChainTypeEthereum? {
        if ParamHasPrefix(request.params, 0, BTC_AGENT) {
          isBTCAgent := true;
        }
        return ExtraNonce(setting.sessionIDString, setting.sessionIDString);
      }
      protocolType := ProtocolEthereumStratum;
      if ParamHasPrefix(request.params, 0, NICE_HASH) {
        isNiceHashClient := true;
      }
      if ParamHasPrefix(request.params, 0, BTC_AGENT) {
        isBTCAgent := true;
        protocolType := ProtocolEthereumStratumNiceHash;
      }
      if ParamHasPrefix(request.params, 1, ETHEREUM_STRATUM) {
        protocolType := ProtocolEthereumStratumNiceHash;
      }
      if protocolType == ProtocolEthereumStratumNiceHash {
        return ExtraNonce(setting.sessionIDString, ExtraNonceOf(setting, isNiceHashClient));
      }
      reply := Yes;
    }

    method ParseAuthorizeRequest(request: Request) returns (result: Named)
      modifies this
      ensures result == ReadNames(setting, old(names), protocolType, request)
      ensures State() == old(State()).(authorizeRequest := Some(request), names := result.names)
    {
      stratumAuthorizeRequest := Some(request);
      result := ReadNames(setting, names, protocolType, request);
      names := result.names;
    }

    method ParseConfigureRequest(request: Request) returns (reply: Reply)
      modifies this`versionMask
      ensures forall stat :: Handled(State(), stat, reply) == Configure(old(State()), stat, request)
    {
      if |request.params| < 2 {
        return Failed(TooFewParams);
      }
      if request.params[1].Options? && request.params[1].versionMask.Some? {
        var mask := Target.ParseUint32(request.params[1].versionMask.value);
        if mask.Parsed? {
          versionMask := mask.n;
        }
      }
      reply := if versionMask != 0 then VersionMask(Target.CompactText(versionMask)) else NoReply;
    }

    method StratumHandleRequest(request: Request, stat: AuthorizeStat) returns (stat': AuthorizeStat, reply: Reply)
      requires Inv(setting, State(), stat)
      modifies this
      ensures Handled(State(), stat', reply) == Handle(setting, old(State()), stat, request)
      ensures Inv(setting, State(), stat')
    {
      HandleKeepsInv(setting, State(), stat, request);
      hide ReadNames;
      stat', reply := stat, NoReply;
      if request.rpcMethod == "mining.subscribe" {
        if stat != StatConnected {
          return stat, Failed(DuplicateSubscribed);
        }
        reply := ParseSubscribeRequest(request);
        stat' := StatSubscribed;
      } else if request.rpcMethod == "eth_submitLogin" || request.rpcMethod == "mining.authorize" {
        if request.rpcMethod == "eth_submitLogin" && protocolType == ProtocolEthereumProxy {
          stratumSubscribeRequest := Some(ETH_PROXY_REQUEST);
          stat' := StatSubscribed;
          jsonRPCVersion := 2;
        }
        if stat' != StatSubscribed {
          return stat', Failed(NeedSubscribed);
        }
        var result := ParseAuthorizeRequest(request);
        if result.Bad? {
          return stat', Failed(result.error);
        }
        stat' := StatAuthorized;
      } else if request.rpcMethod == "mining.configure" && protocolType == ProtocolBitcoinStratum {
        reply := ParseConfigureRequest(request);
      }
    }

    method SendMiningSubscribeToServer(idText: string)
      requires stratumSubscribeRequest.Some?
      modifies this`stratumSubscribeRequest
      ensures State() == Sent(setting, old(State()), idText)
    {
      var request := stratumSubscribeRequest.value;
      var userAgent, protocol := TextOr(request.params, 0, "stratumSwitcher"), TextOr(request.params, 1, "Stratum");
      if protocolType == ProtocolBitcoinStratum {
        stratumSubscribeRequest := Some(request.(params := [Text(userAgent), Text(idText), Other]));
      } else {
        stratumSubscribeRequest :=
          Some(request.(params := [Text(userAgent), Text(protocol), Text(setting.sessionIDString), Other]));
      }
    }

    /** `Resume` up to the proxying; without success the caller stops the session. `found` is what the lookup finds. */
    method Resume(saved: Saved, found: Option<string>) returns (ok: bool)
      requires State() == Start(setting)
      modifies this
      ensures ok <==> Replayed(setting, saved, found).Some?
      ensures ok ==> Replayed(setting, saved, found) == Some(State())
    {
      versionMask := saved.versionMask;
      var stat := StatConnected;
      var reply: Reply;
      if saved.subscribeRequest.Some? {
        stat, reply := StratumHandleRequest(saved.subscribeRequest.value, stat);
        if reply.Failed? {
          return false;
        }
      }
      if saved.authorizeRequest.Some? {
        stat, reply := StratumHandleRequest(saved.authorizeRequest.value, stat);
        if reply.Failed? {
          return false;
        }
      }
      if stat != StatAuthorized {
        return false;
      }
      if found.None? {
        return false;
      }
      ok := found.value == saved.miningCoin;
    }
  }
}

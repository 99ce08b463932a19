/**
  The user lists of the chain API server and the JSON text cached for each of them.

  Every call runs under one lock. The list of the empty coin name is the merged list of all coins.
*/
module UserListJSON {
  import opened Options

  /** A C `int`. */
  type cint = x: int | -0x8000_0000 <= x < 0x8000_0000

  // ---- The text of a list ----

  function Digits(n: nat): (s: string)
    ensures |s| > 0 && s[0] != '-' && forall c | c in s :: '0' <= c <= '9'
  {
    var digit := [('0' as int + n % 10) as char];
    if n < 10 then digit else Digits(n / 10) + digit
  }

  /** `std::to_string`. */
  function Decimal(n: int): (s: string)
    ensures forall c | c in s :: c == '-' || '0' <= c <= '9'
  {
    if n < 0 then "-" + Digits(-n) else Digits(n)
  }

  datatype Entry = Entry(puname: string, puid: cint)

  function EntryText(e: Entry): string {
    "\"" + e.puname + "\":" + Decimal(e.puid)
  }

  /** The entries, separated by commas. */
  function Joined(entries: seq<Entry>): string {
    if entries == [] then ""
    else if |entries| == 1 then EntryText(entries[0])
    else EntryText(entries[0]) + "," + Joined(entries[1..])
  }

  const HEAD: string := "{\"err_no\":0,\"err_msg\":null,\"data\":{"

  function ListText(entries: seq<Entry>): string {
    HEAD + Joined(entries) + "}}"
  }

  /** The order of a `std::map`. */
  predicate Ascending(keys: seq<cint>) {
    forall i, j | 0 <= i < j < |keys| :: keys[i] < keys[j]
  }

  predicate IsLeast(x: cint, s: set<cint>) {
    x in s && forall y | y in s :: x <= y
  }

  lemma {:induction false} LeastExists(s: set<cint>)
    requires s != {}
    ensures exists x: cint :: IsLeast(x, s)
  {
    var x: cint :| x in s;
    if s == {x} {
      assert IsLeast(x, s);
    } else {
      LeastExists(s - {x});
      var y: cint :| IsLeast(y, s - {x});
      var z := if y < x then y else x;
      forall v | v in s ensures z <= v {
        assert v == x || v in s - {x};
      }
      assert IsLeast(z, s);
    }
  }

  function Least(s: set<cint>): (x: cint)
    requires s != {}
    ensures IsLeast(x, s)
  {
    LeastExists(s);
    var x :| x in s && IsLeast(x, s);
    x
  }

  /** The keys in the order in which an iterator visits them. */
  function Sorted(s: set<cint>): (keys: seq<cint>)
    ensures Ascending(keys) && forall x :: x in keys <==> x in s
  {
    if s == {} then [] else [Least(s)] + Sorted(s - {Least(s)})
  }

  function EntriesOf(list: map<cint, string>, keys: seq<cint>): (entries: seq<Entry>)
    requires forall k | k in keys :: k in list
    ensures |entries| == |keys|
    ensures forall i | 0 <= i < |keys| :: entries[i] == Entry(list[keys[i]], keys[i])
  {
    if keys == [] then [] else [Entry(list[keys[0]], keys[0])] + EntriesOf(list, keys[1..])
  }

  /** The entries of a list after `lastUserId`; all of them when it is not positive. */
  function EntriesAfter(list: map<cint, string>, lastUserId: cint): seq<Entry> {
    EntriesOf(list, Sorted(set puid | puid in list && (lastUserId <= 0 || puid > lastUserId)))
  }

  function Fresh(list: map<cint, string>, lastUserId: cint): string {
    ListText(EntriesAfter(list, lastUserId))
  }

  // ---- The state ----

  datatype JSONCache = JSONCache(lastUserId: cint, json: string)

  datatype Lists = Lists(userIDMaps: map<string, map<cint, string>>, caches: map<string, JSONCache>)

  const EMPTY: Lists := Lists(map[], map[])

  /** `userIDMaps[coin]`: a coin without a list has an empty one. */
  function ListOf(s: Lists, coin: string): map<cint, string> {
    if coin in s.userIDMaps then s.userIDMaps[coin] else map[]
  }

  function Added(s: Lists, puid: cint, puname: string, coin: string): Lists {
    var maps := s.userIDMaps[coin := ListOf(s, coin)[puid := puname]];
    var merged := (if "" in maps then maps[""] else map[])[puid := puname];
    Lists(maps["" := merged], s.caches - {coin} - {""})
  }

  predicate CacheHit(s: Lists, lastUserId: cint, coin: string) {
    coin in s.caches && s.caches[coin].json != "" && s.caches[coin].lastUserId == lastUserId
  }

  function Listed(s: Lists, lastUserId: cint, coin: string): Lists {
    if CacheHit(s, lastUserId, coin) then s
    else
      Lists(s.userIDMaps[coin := ListOf(s, coin)],
            s.caches[coin := JSONCache(lastUserId, Fresh(ListOf(s, coin), lastUserId))])
  }

  /** A cached text is the one rendering the list now would give. */
  ghost predicate CacheAgrees(s: Lists) {
    forall coin | coin in s.caches && s.caches[coin].json != "" ::
      s.caches[coin].json == Fresh(ListOf(s, coin), s.caches[coin].lastUserId)
  }

  // ---- Every run ----

  datatype Call = AddUser(puid: cint, puname: string, coin: string) | GetUserListJson(lastUserId: cint, coin: string)

  function After(s: Lists, call: Call): Lists {
    match call
    case AddUser(puid, puname, coin) => Added(s, puid, puname, coin)
    case GetUserListJson(lastUserId, coin) => Listed(s, lastUserId, coin)
  }

  function AfterAll(calls: seq<Call>): Lists {
    if calls == [] then EMPTY else After(AfterAll(calls[..|calls| - 1]), calls[|calls| - 1])
  }

  /** The name last added under an ID for a coin, or for any coin when the coin is the empty one. */
  function LastName(calls: seq<Call>, coin: string, puid: cint): Option<string> {
    if calls == [] then None
    else
      var last := calls[|calls| - 1];
      if last.AddUser? && last.puid == puid && (coin == "" || last.coin == coin) then Some(last.puname)
      else LastName(calls[..|calls| - 1], coin, puid)
  }

  lemma CallKeepsCache(s: Lists, call: Call)
    requires CacheAgrees(s)
    ensures CacheAgrees(After(s, call))
  {
  }

  lemma {:induction false} CacheAlwaysAgrees(calls: seq<Call>)
    ensures CacheAgrees(AfterAll(calls))
  {
    if calls != [] {
      CacheAlwaysAgrees(calls[..|calls| - 1]);
      CallKeepsCache(AfterAll(calls[..|calls| - 1]), calls[|calls| - 1]);
    }
  }

  /** Every list, the merged one included, holds for each ID the name last added. */
  lemma {:induction false} ListsAreLastWriterWins(calls: seq<Call>, coin: string, puid: cint)
    ensures puid in ListOf(AfterAll(calls), coin) <==> LastName(calls, coin, puid).Some?
    ensures puid in ListOf(AfterAll(calls), coin) ==>
              LastName(calls, coin, puid) == Some(ListOf(AfterAll(calls), coin)[puid])
  {
    if calls != [] {
      ListsAreLastWriterWins(calls[..|calls| - 1], coin, puid);
    }
  }

  /** The entries listed are exactly those with an ID after the last one, each once, in ascending order. */
  lemma EntriesAreExact(list: map<cint, string>, lastUserId: cint)
    ensures forall i, j | 0 <= i < j < |EntriesAfter(list, lastUserId)| ::
              EntriesAfter(list, lastUserId)[i].puid < EntriesAfter(list, lastUserId)[j].puid
    ensures forall e: Entry :: e in EntriesAfter(list, lastUserId) <==>
              e.puid in list && list[e.puid] == e.puname && (lastUserId <= 0 || e.puid > lastUserId)
  {
    var keys := Sorted(set puid | puid in list && (lastUserId <= 0 || puid > lastUserId));
    forall e: Entry ensures e in EntriesAfter(list, lastUserId) <==> e.puid in keys && list[e.puid] == e.puname {
      EntriesOfMember(list, keys, e);
    }
  }

  lemma EntriesOfMember(list: map<cint, string>, keys: seq<cint>, e: Entry)
    requires forall k | k in keys :: k in list
    ensures e in EntriesOf(list, keys) <==> e.puid in keys && list[e.puid] == e.puname
  {
    if e.puid in keys && list[e.puid] == e.puname {
      var i :| 0 <= i < |keys| && keys[i] == e.puid;
      assert EntriesOf(list, keys)[i] == e;
    }
  }

  /** The text `getUserListJson` returns. */
  function Text(s: Lists, lastUserId: cint, coin: string): string {
    if CacheHit(s, lastUserId, coin) then s.caches[coin].json else Fresh(ListOf(s, coin), lastUserId)
  }

  /**
    After any calls the text lists, once and in ascending order, exactly the last names added under the IDs
    that come after `lastUserId`.
  */
  lemma TextListsLastNames(calls: seq<Call>, lastUserId: cint, coin: string) returns (entries: seq<Entry>)
    ensures Text(AfterAll(calls), lastUserId, coin) == ListText(entries)
    ensures forall i, j | 0 <= i < j < |entries| :: entries[i].puid < entries[j].puid
    ensures forall e: Entry :: e in entries <==>
              LastName(calls, coin, e.puid) == Some(e.puname) && (lastUserId <= 0 || e.puid > lastUserId)
  {
    var s := AfterAll(calls);
    CacheAlwaysAgrees(calls);
    entries := EntriesAfter(ListOf(s, coin), lastUserId);
    assert Text(s, lastUserId, coin) == ListText(entries);
    EntriesAreExact(ListOf(s, coin), lastUserId);
    hide AfterAll, LastName, EntriesAfter, CacheAgrees;
    forall e: Entry
      ensures e in entries <==>
              LastName(calls, coin, e.puid) == Some(e.puname) && (lastUserId <= 0 || e.puid > lastUserId)
    {
      ListsAreLastWriterWins(calls, coin, e.puid);
    }
  }

  // ---- What the text looks like ----

  /** The number that a text of digits stands for in base ten. */
  function ReadDigits(s: string): int {
    if s == "" then 0 else 10 * ReadDigits(s[..|s| - 1]) + (s[|s| - 1] as int - '0' as int)
  }

  function ReadDecimal(s: string): int {
    if s != "" && s[0] == '-' then -ReadDigits(s[1..]) else ReadDigits(s)
  }

  lemma {:induction false} DigitsRead(n: nat)
    ensures ReadDigits(Digits(n)) == n
  {
    var s := Digits(n);
    assert s[|s| - 1] as int - '0' as int == n % 10;
    if n >= 10 {
      assert s[..|s| - 1] == Digits(n / 10);
      DigitsRead(n / 10);
    } else {
      assert s[..|s| - 1] == "";
    }
  }

  /** An ID is written in base ten, with a minus sign if it is negative. */
  lemma DecimalReads(n: int)
    ensures ReadDecimal(Decimal(n)) == n
  {
    if n < 0 {
      assert Decimal(n)[1..] == Digits(-n);
      DigitsRead(-n);
    } else {
      DigitsRead(n);
    }
  }

  /** How an entry and the entries after it are written. */
  lemma JoinedShape(e: Entry, rest: seq<Entry>)
    ensures Joined([]) == ""
    ensures Joined([e] + rest) ==
            ("\"" + e.puname + "\":" + Decimal(e.puid)) + (if rest == [] then "" else "," + Joined(rest))
  {
    assert ([e] + rest)[1..] == rest;
    assert EntryText(e) == "\"" + e.puname + "\":" + Decimal(e.puid);
    hide Decimal, EntryText;
  }

  /** The frame around the entries. */
  lemma TextFrame(entries: seq<Entry>)
    ensures ListText(entries) == "{\"err_no\":0,\"err_msg\":null,\"data\":{" + Joined(entries) + "}}"
  {
  }

  // ---- The text determines the entries ----

  lemma {:induction false} DigitsInjective(m: nat, n: nat)
    requires Digits(m) == Digits(n)
    ensures m == n
  {
    var s, t := Digits(m), Digits(n);
    assert s[|s| - 1] == ('0' as int + m % 10) as char;
    assert t[|t| - 1] == ('0' as int + n % 10) as char;
    if m >= 10 && n >= 10 {
      assert s[..|s| - 1] == Digits(m / 10) && t[..|t| - 1] == Digits(n / 10);
      DigitsInjective(m / 10, n / 10);
    }
  }

  lemma DecimalInjective(m: int, n: int)
    requires Decimal(m) == Decimal(n)
    ensures m == n
  {
    if m < 0 && n < 0 {
      assert Decimal(m)[1..] == Digits(-m) && Decimal(n)[1..] == Digits(-n);
      DigitsInjective(-m, -n);
    } else if m >= 0 && n >= 0 {
      DigitsInjective(m, n);
    }
  }

  /** Two texts split at the first occurrence of a character are split alike. */
  lemma SplitAtFirst(x: string, y: string, c: char, u: string, v: string)
    requires x + [c] + u == y + [c] + v && c !in x && c !in y
    ensures x == y && u == v
  {
    var s := x + [c] + u;
    assert s[|x|] == c && forall i | 0 <= i < |x| :: s[i] == x[i];
    assert s[|y|] == c && forall i | 0 <= i < |y| :: s[i] == y[i];
    assert |x| == |y|;
    assert x == s[..|x|] && y == s[..|y|] && u == s[|x| + 1..] && v == s[|y| + 1..];
  }

  predicate QuoteFree(entries: seq<Entry>) {
    forall e | e in entries :: '"' !in e.puname
  }

  function Rest(entries: seq<Entry>): string {
    if |entries| <= 1 then "" else Joined(entries[1..]) + ","
  }

  lemma JoinedParts(entries: seq<Entry>)
    requires entries != []
    ensures Joined(entries) + "," ==
            ['"'] + (entries[0].puname + ['"'] + ([':'] + (Decimal(entries[0].puid) + [','] + Rest(entries))))
  {
    var name, number := entries[0].puname, Decimal(entries[0].puid);
    hide Decimal;
    EntryParts(name, number);
    if |entries| > 1 {
      Reassociate(EntryText(entries[0]), name, number, Joined(entries[1..]) + ",");
      assert Joined(entries) + "," == EntryText(entries[0]) + [','] + (Joined(entries[1..]) + ",");
    } else {
      Reassociate(EntryText(entries[0]), name, number, "");
    }
  }

  lemma EntryParts(name: string, number: string)
    ensures "\"" + name + "\":" + number == ['"'] + (name + ['"'] + ([':'] + number))
  {
  }

  lemma Reassociate(text: string, name: string, number: string, tail: string)
    requires text == ['"'] + (name + ['"'] + ([':'] + number))
    ensures text + [','] + tail == ['"'] + (name + ['"'] + ([':'] + (number + [','] + tail)))
  {
  }

  /** Names without quotes and IDs can be read back: lists with the same text are the same. */
  lemma {:induction false} TextDeterminesEntries(a: seq<Entry>, b: seq<Entry>)
    requires QuoteFree(a) && QuoteFree(b) && Joined(a) == Joined(b)
    ensures a == b
  {
    if a != [] && b != [] {
      FirstEntryAndRest(a, b);
      if |a| > 1 && |b| > 1 {
        assert Joined(a[1..]) == Rest(a)[..|Rest(a)| - 1];
        assert Joined(b[1..]) == Rest(b)[..|Rest(b)| - 1];
        hide Joined;
        TextDeterminesEntries(a[1..], b[1..]);
        assert a == [a[0]] + a[1..] && b == [b[0]] + b[1..];
      }
    }
  }

  lemma FirstEntryAndRest(a: seq<Entry>, b: seq<Entry>)
    requires a != [] && b != [] && QuoteFree(a) && QuoteFree(b) && Joined(a) == Joined(b)
    ensures a[0] == b[0] && Rest(a) == Rest(b)
  {
    JoinedParts(a);
    JoinedParts(b);
    assert a[0] in a && b[0] in b;
    var da, db := Decimal(a[0].puid), Decimal(b[0].puid);
    hide Joined, Decimal, Rest;
    DropFirst('"', a[0].puname + ['"'] + ([':'] + (da + [','] + Rest(a))),
              b[0].puname + ['"'] + ([':'] + (db + [','] + Rest(b))));
    SplitAtFirst(a[0].puname, b[0].puname, '"', [':'] + (da + [','] + Rest(a)), [':'] + (db + [','] + Rest(b)));
    DropFirst(':', da + [','] + Rest(a), db + [','] + Rest(b));
    SplitAtFirst(da, db, ',', Rest(a), Rest(b));
    DecimalInjective(a[0].puid, b[0].puid);
  }

  lemma DropFirst(c: char, u: string, v: string)
    requires [c] + u == [c] + v
    ensures u == v
  {
    assert u == ([c] + u)[1..];
  }

  // ---- The lists ----

  lemma {:induction false} AscendingUnique(a: seq<cint>, b: seq<cint>)
    requires Ascending(a) && Ascending(b) && forall x: cint :: x in a <==> x in b
    ensures a == b
  {
    assert a != [] ==> a[0] in a;
    assert b != [] ==> b[0] in b;
    if a != [] && b != [] {
      assert a[0] == b[0];
      forall x: cint ensures x in a[1..] <==> x in b[1..] {
        assert x in a <==> x == a[0] || x in a[1..];
        assert x in b <==> x == b[0] || x in b[1..];
      }
      AscendingUnique(a[1..], b[1..]);
    }
  }

  /** `upper_bound`: where the keys above `k` begin. */
  function UpperBound(keys: seq<cint>, k: cint): (i: nat)
    requires Ascending(keys)
    ensures i <= |keys|
    ensures forall j | 0 <= j < i :: keys[j] <= k
    ensures forall j | i <= j < |keys| :: keys[j] > k
  {
    if keys == [] || keys[0] > k then 0 else 1 + UpperBound(keys[1..], k)
  }

  function Begin(keys: seq<cint>, lastUserId: cint): nat
    requires Ascending(keys)
  {
    if lastUserId <= 0 then 0 else UpperBound(keys, lastUserId)
  }

  lemma SuffixMember(keys: seq<cint>, i: nat, k: cint, x: cint)
    requires i <= |keys|
    requires forall j | 0 <= j < i :: keys[j] <= k
    requires forall j | i <= j < |keys| :: keys[j] > k
    ensures x in keys[i..] <==> x in keys && x > k
  {
    if x in keys && x > k {
      var j :| 0 <= j < |keys| && keys[j] == x;
      assert keys[i..][j - i] == x;
    }
  }

  lemma BeginMember(keys: seq<cint>, lastUserId: cint, x: cint)
    requires Ascending(keys)
    ensures Begin(keys, lastUserId) <= |keys|
    ensures x in keys[Begin(keys, lastUserId)..] <==> x in keys && (lastUserId <= 0 || x > lastUserId)
  {
    if lastUserId <= 0 {
      assert keys[0..] == keys;
    } else {
      SuffixMember(keys, UpperBound(keys, lastUserId), lastUserId, x);
    }
  }

  lemma BeginIsFirst(list: map<cint, string>, lastUserId: cint)
    ensures Begin(Sorted(list.Keys), lastUserId) <= |Sorted(list.Keys)|
    ensures EntriesAfter(list, lastUserId) == EntriesOf(list, Sorted(list.Keys)[Begin(Sorted(list.Keys), lastUserId)..])
  {
    hide Sorted, EntriesOf;
    var keys := Sorted(list.Keys);
    var wanted := Sorted(set puid | puid in list && (lastUserId <= 0 || puid > lastUserId));
    BeginMember(keys, lastUserId, 0);
    var suffix := keys[Begin(keys, lastUserId)..];
    forall x: cint ensures x in suffix <==> x in wanted {
      BeginMember(keys, lastUserId, x);
    }
    hide Begin;
    AscendingUnique(suffix, wanted);
  }

  /** The loop that renders a list. */
  method Render(list: map<cint, string>, lastUserId: cint) returns (json: string)
    ensures json == Fresh(list, lastUserId)
  {
    var keys := Sorted(list.Keys);
    BeginIsFirst(list, lastUserId);
    hide Joined, EntriesOf, Sorted, Decimal, Begin, EntriesAfter;
    var iter := Begin(keys, lastUserId);
    ghost var text := Joined(EntriesAfter(list, lastUserId));
    json := HEAD;
    while iter < |keys|
      invariant iter <= |keys|
      invariant json + Joined(EntriesOf(list, keys[iter..])) == HEAD + text
    {
      EntryAppended(json, list, keys, iter);
      json := json + "\"" + list[keys[iter]] + "\":" + Decimal(keys[iter]);
      iter := iter + 1;
      if iter != |keys| {
        json := json + ",";
      }
    }
    json := json + "}}";
    NothingLeft(list, keys);
    assert json == Fresh(list, lastUserId);
  }

  class UserListJSON {
    var userIDMaps: map<string, map<cint, string>>
    var userListJsonCaches: map<string, JSONCache>

    function State(): Lists
      reads this
    {
      Lists(userIDMaps, userListJsonCaches)
    }

    ghost predicate Valid()
      reads this
    {
      CacheAgrees(State())
    }

    constructor ()
      ensures Valid() && State() == EMPTY
    {
      userIDMaps, userListJsonCaches := map[], map[];
    }

    method AddUser(puid: cint, puname: string, coin: string)
      requires Valid()
      modifies this
      ensures Valid() && State() == Added(old(State()), puid, puname, coin)
    {
      ghost var s := State();
      CallKeepsCache(s, Call.AddUser(puid, puname, coin));
      hide CacheAgrees;
      userIDMaps := userIDMaps[coin := ListOf(State(), coin)[puid := puname]];
      userIDMaps := userIDMaps["" := ListOf(State(), "")[puid := puname]];
      userListJsonCaches := userListJsonCaches - {coin};
      userListJsonCaches := userListJsonCaches - {""};
      assert State() == After(s, Call.AddUser(puid, puname, coin));
    }

    /** The text is what rendering the list afresh gives, whether it was cached or not. */
    method GetUserListJson(lastUserId: cint, coin: string) returns (json: string)
      requires Valid()
      modifies this
      ensures Valid() && State() == Listed(old(State()), lastUserId, coin)
      ensures json == Fresh(ListOf(old(State()), coin), lastUserId) == Text(old(State()), lastUserId, coin)
      ensures ListOf(State(), coin) == ListOf(old(State()), coin)
    {
      ghost var s := State();
      CallKeepsCache(s, Call.GetUserListJson(lastUserId, coin));
      assert CacheHit(s, lastUserId, coin) ==> s.caches[coin].json == Fresh(ListOf(s, coin), lastUserId);
      hide CacheAgrees, Fresh;
      if && coin in userListJsonCaches && userListJsonCaches[coin].json != ""
         && userListJsonCaches[coin].lastUserId == lastUserId
      {
        return userListJsonCaches[coin].json;
      }
      if coin !in userIDMaps {
        userIDMaps := userIDMaps[coin := map[]];
      }
      var list := userIDMaps[coin];
      assert userIDMaps == s.userIDMaps[coin := list];
      assert list == ListOf(s, coin);
      json := Render(list, lastUserId);
      userListJsonCaches := userListJsonCaches[coin := JSONCache(lastUserId, json)];
      assert State() == After(s, Call.GetUserListJson(lastUserId, coin));
    }
  }

  lemma NothingLeft(list: map<cint, string>, keys: seq<cint>)
    requires forall k | k in keys :: k in list
    ensures Joined(EntriesOf(list, keys[|keys|..])) == ""
  {
  }

  /** One turn of the loop moves the first of the remaining entries into the text. */
  lemma EntryAppended(json: string, list: map<cint, string>, keys: seq<cint>, i: nat)
    requires i < |keys| && forall k | k in keys :: k in list
    ensures var longer := json + "\"" + list[keys[i]] + "\":" + Decimal(keys[i]);
            json + Joined(EntriesOf(list, keys[i..])) ==
            (if i + 1 != |keys| then longer + "," else longer) + Joined(EntriesOf(list, keys[i + 1..]))
  {
    var entries := EntriesOf(list, keys[i..]);
    assert keys[i..][1..] == keys[i + 1..];
    assert entries[1..] == EntriesOf(list, keys[i + 1..]);
    assert EntryText(entries[0]) == "\"" + list[keys[i]] + "\":" + Decimal(keys[i]);
    hide EntriesOf, Decimal;
    if i + 1 != |keys| {
      assert Joined(entries) == EntryText(entries[0]) + "," + Joined(entries[1..]);
    }
  }
}

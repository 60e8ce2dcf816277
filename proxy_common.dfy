/**
 * What the two replication-aware client proxies share: how they normalise
 * server addresses, how they pick a replica, and the transport they talk
 * through, given as an oracle of outcomes.
 */
module ProxyCommon {
  import opened BookStoreTypes

  const HttpScheme := "http://"
  const StockSuffix := "/stock"

  // ------------------------------------------------------------- addresses

  /** Lower-case one character (only ASCII letters change; see README). */
  function LowerChar(c: char): (r: char)
    ensures 'A' <= c <= 'Z' ==> 'a' <= r <= 'z'
    ensures !('A' <= c <= 'Z') ==> r == c
  {
    if 'A' <= c <= 'Z' then (c as int - 'A' as int + 'a' as int) as char else c
  }

  /** toLowerCase. */
  function Lower(s: string): (r: string)
    ensures |r| == |s|
    ensures forall i :: 0 <= i < |s| ==> r[i] == LowerChar(s[i])
  {
    seq(|s|, i requires 0 <= i < |s| => LowerChar(s[i]))
  }

  predicate StartsWith(s: string, prefix: string)
  {
    |prefix| <= |s| && s[..|prefix|] == prefix
  }

  predicate EndsWith(s: string, suffix: string)
  {
    |suffix| <= |s| && s[|s| - |suffix|..] == suffix
  }

  /** The test both proxies apply: does the lower-cased address start with "http://"? */
  predicate HasHttpScheme(a: string)
  {
    StartsWith(Lower(a), HttpScheme)
  }

  /** An address that has the scheme keeps it whatever is appended. */
  lemma SchemeSurvivesAppend(a: string, t: string)
    requires HasHttpScheme(a)
    ensures HasHttpScheme(a + t)
  {
    assert forall i :: 0 <= i < |HttpScheme| ==> Lower(a + t)[i] == Lower(a)[i];
  }

  /** "http://" followed by anything has the scheme. */
  lemma SchemePrefixHasScheme(a: string)
    ensures HasHttpScheme(HttpScheme + a)
  {
    assert forall i :: 0 <= i < |HttpScheme| ==> Lower(HttpScheme + a)[i] == HttpScheme[i];
  }

  /**
   * Prefix "http://" unless the lower-cased address already starts with it:
   * the result always has the scheme, and it is the address itself exactly
   * when the address already had it.
   */
  function WithHttpScheme(a: string): (r: string)
    ensures HasHttpScheme(r)
    ensures r == a <==> HasHttpScheme(a)
    ensures r == a || r == HttpScheme + a
  {
    if HasHttpScheme(a) then a
    else
      SchemePrefixHasScheme(a);
      HttpScheme + a
  }

  /** Normalising an address twice is normalising it once. */
  lemma WithHttpSchemeIdempotent(a: string)
    ensures WithHttpScheme(WithHttpScheme(a)) == WithHttpScheme(a)
  {
  }

  /**
   * Append "/stock" unless the address already ends with it: the result
   * always ends with it, and it is the address itself exactly when the
   * address already did.
   */
  function WithStockSuffix(a: string): (r: string)
    ensures EndsWith(r, StockSuffix)
    ensures r == a <==> EndsWith(a, StockSuffix)
    ensures r == a || r == a + StockSuffix
  {
    if EndsWith(a, StockSuffix) then a
    else
      assert (a + StockSuffix)[|a|..] == StockSuffix;
      a + StockSuffix
  }

  /**
   * The stock manager's address normalisation: the scheme first, then the
   * "/stock" suffix; the result has both.
   */
  function StockAddress(a: string): (r: string)
    ensures HasHttpScheme(r) && EndsWith(r, StockSuffix)
  {
    var withScheme := WithHttpScheme(a);
    SchemeSurvivesAppend(withScheme, StockSuffix);
    WithStockSuffix(withScheme)
  }

  /** An address that is already a stock address is left alone, so normalising twice is normalising once. */
  lemma StockAddressIdempotent(a: string)
    ensures StockAddress(StockAddress(a)) == StockAddress(a)
  {
    var r := StockAddress(a);
    assert WithHttpScheme(r) == r;
    assert WithStockSuffix(r) == r;
  }

  // ------------------------------------------------------------ slave sets

  /** Set.remove on a set held as its iteration order. */
  function Remove(s: seq<string>, a: string): (r: seq<string>)
    ensures forall x :: x in r <==> x in s && x != a
    ensures Distinct(s) ==> Distinct(r)
    ensures a !in s ==> r == s
    ensures |r| <= |s|
  {
    if s == [] then []
    else if s[0] == a then Remove(s[1..], a)
    else
      assert forall k :: 0 <= k < |s[1..]| ==> s[1..][k] == s[k + 1];
      assert Distinct(s) ==> s[0] !in s[1..];
      [s[0]] + Remove(s[1..], a)
  }

  /**
   * The slave set a proxy builds from the configured addresses: each one
   * normalised, added to a set (so repeats collapse), in first-seen order.
   */
  function AddressSet(raw: seq<string>, normalise: string -> string): (r: seq<string>)
    ensures Distinct(r)
    ensures forall i :: 0 <= i < |raw| ==> normalise(raw[i]) in r
    ensures forall j :: 0 <= j < |r| ==> r[j] in set i | 0 <= i < |raw| :: normalise(raw[i])
    ensures |r| <= |raw|
  {
    if raw == [] then []
    else
      var init := raw[..|raw| - 1];
      var rest := AddressSet(init, normalise);
      var a := normalise(raw[|raw| - 1]);
      assert forall i :: 0 <= i < |init| ==> raw[i] == init[i];
      if a in rest then rest else rest + [a]
  }

  /** Build the slave set: normalise each configured address and add it. */
  method CollectAddresses(raw: seq<string>, normalise: string -> string) returns (r: seq<string>)
    ensures r == AddressSet(raw, normalise)
  {
    r := [];
    var i := 0;
    while i < |raw|
      invariant 0 <= i <= |raw|
      invariant r == AddressSet(raw[..i], normalise)
    {
      var a := normalise(raw[i]);
      assert raw[..i + 1][..i] == raw[..i];
      if a !in r {
        r := r + [a];
      }
      i := i + 1;
    }
    assert raw[..|raw|] == raw;
  }

  /** The number a string of decimal digits denotes (what Integer.parseInt reads). */
  function DigitsValue(s: string): int
  {
    if s == [] then 0 else DigitsValue(s[..|s| - 1]) * 10 + (s[|s| - 1] as int - '0' as int)
  }

  /** The number a decimal numeral denotes, with an optional leading '-'. */
  function ParseInteger(s: string): int
  {
    if |s| > 0 && s[0] == '-' then -DigitsValue(s[1..]) else DigitsValue(s)
  }

  /**
   * Integer.toString: the decimal digits of n, after a '-' when n is
   * negative. Digits and '-' are left alone by URLEncoder, so this is also
   * the URL-encoded count of getEditorPicks.
   */
  function IntegerString(n: int): (r: string)
    ensures |r| > 0
    ensures r[0] == '-' <==> n < 0
    ensures forall i :: (if n < 0 then 1 else 0) <= i < |r| ==> '0' <= r[i] <= '9'
    ensures ParseInteger(r) == n
  {
    if n < 0 then
      var d := DecimalDigits(-n);
      assert ("-" + d)[1..] == d;
      "-" + d
    else DecimalDigits(n)
  }

  /** The decimal digits of n, most significant first, without leading zeros. */
  function DecimalDigits(n: nat): (r: string)
    ensures |r| > 0 && forall i :: 0 <= i < |r| ==> '0' <= r[i] <= '9'
    ensures r[0] != '0' || r == "0"
    ensures DigitsValue(r) == n
  {
    var digit := ('0' as int + n % 10) as char;
    if n < 10 then
      assert [digit][..0] == [];
      [digit]
    else
      var prefix := DecimalDigits(n / 10);
      assert (prefix + [digit])[..|prefix|] == prefix;
      prefix + [digit]
  }

  // ------------------------------------------------------ replica selection

  /** Where a send goes: the master, or a member of the slave set. */
  datatype Replica = Master | Slave(address: string)

  function AddressOf(r: Replica, master: string): string
  {
    match r
    case Master => master
    case Slave(a) => a
  }

  /**
   * getReplicaAddress: with num drawn from [0, |slaves|], the num-th slave
   * in iteration order, or the master when the draw overshoots the set; so
   * always a slave or the master, and the master when there is no slave.
   */
  function SelectReplica(slaves: seq<string>, num: int): (r: Replica)
    ensures r.Slave? ==> r.address in slaves
    ensures |slaves| == 0 ==> r == Master
    ensures 0 <= num < |slaves| ==> r == Slave(slaves[num])
    ensures num == |slaves| ==> r == Master
  {
    if 0 <= num < |slaves| then Slave(slaves[num]) else Master
  }

  /**
   * getReplicaAddress's walk, given the number drawn from [0, |slaves|]:
   * iterate over the slave set to the num-th member; past its end, the
   * master.
   */
  method WalkToReplica(slaves: seq<string>, num: int) returns (r: Replica)
    ensures r == SelectReplica(slaves, num)
  {
    if num < |slaves| {
      var i := 0;
      while i < |slaves|
        invariant 0 <= i <= |slaves|
        invariant num < i ==> num < 0
      {
        if i == num {
          return Slave(slaves[i]);
        }
        i := i + 1;
      }
    }
    return Master;
  }

  // -------------------------------------------------------------- transport

  /** A server's reply: the snapshot id it was computed at, and its result list. */
  datatype Reply<T> = Reply(snapshotId: int, resultList: seq<T>)

  /**
   * How one SendAndRecv ended: a reply, a NetworkException (the server is
   * unreachable), or a BookStoreException the server raised.
   */
  datatype SendOutcome<T> = Delivered(reply: Reply<T>) | NetworkFailure | Rejected(error: Error)

  /** A request: the server address, the message tag and the query; its URL is address + "/" + tag + query. */
  datatype Request = Request(address: string, tag: MessageTag, query: string)

  /**
   * The transport and the randomness, as oracles: send(n, request) is the
   * outcome of the n-th send, made to the request's URL; draw(n) is the
   * number the n-th replica choice draws; limit bounds the sends a call may
   * make.
   */
  datatype Network<T> = Network(send: (nat, Request) -> SendOutcome<T>, draw: nat -> int, limit: nat)

  /**
   * How sendToAvailableReplica ended: a reply, an exception it threw
   * itself, an exception a server raised that it passes on, or the attempt
   * bound was reached (the Java would keep trying).
   */
  datatype SendResult<T> =
    | Received(reply: Reply<T>)
    | Raised(error: Error)
    | Relayed(error: Error)
    | OutOfAttempts

  /** How a proxy call ended: a value, an exception, or the attempt bound was reached. */
  datatype Outcome<T> = Value(value: T) | Threw(error: Error) | Exhausted
}

/**
 * The proxy's start-up configuration: the source address pool parsed from
 * the `IP_POOL` variable, and the three checks run before the server starts.
 * The environment is not read here: the variable's value is a parameter.
 */
module Config {
  import opened Wrappers
  import opened Strings

  datatype ProxyConfig = ProxyConfig(
    ipAddresses: seq<string>,
    username: string,
    password: string,
    listenAddress: string)

  /** The pool used when `IP_POOL` is unset. */
  const DefaultIpPool: string := "127.0.0.1"

  const EmptyPoolError: string := "IP_POOL is empty. Please set IP_POOL environment variable."
  const EmptyUserError: string := "PROXY_USER cannot be empty."
  const EmptyPassError: string := "PROXY_PASS cannot be empty."

  /** What one field contributes to the pool: its trimmed form, unless that is empty. */
  function FieldEntry(f: string): (e: seq<string>)
    ensures |e| <= 1
    ensures e == [] <==> AllWhitespace(f)
  {
    var t := Trim(f);
    if t == "" then [] else [t]
  }

  /** The trimmed fields, in order, with the blank ones left out. */
  function NonBlankFields(fields: seq<string>): (ips: seq<string>)
    ensures |ips| <= |fields|
  {
    if fields == [] then [] else FieldEntry(fields[0]) + NonBlankFields(fields[1..])
  }

  /** Every entry kept is non-empty, trimmed, and free of the separator when the fields are. */
  lemma {:induction false} NonBlankFieldsClean(fields: seq<string>)
    requires forall f :: f in fields ==> ',' !in f
    ensures forall ip :: ip in NonBlankFields(fields) ==> ip != "" && IsTrimmed(ip) && ',' !in ip
  {
    if fields != [] {
      var e, rest := FieldEntry(fields[0]), NonBlankFields(fields[1..]);
      assert NonBlankFields(fields) == e + rest;
      assert forall f :: f in fields[1..] ==> f in fields;
      NonBlankFieldsClean(fields[1..]);
      assert ',' !in fields[0] by { assert fields[0] in fields; }
      TrimKeepsCharacters(fields[0]);
      forall ip | ip in e + rest ensures ip != "" && IsTrimmed(ip) && ',' !in ip {
        if ip !in rest {
          assert ip == Trim(fields[0]);
        }
      }
    }
  }

  lemma {:induction false} NonBlankFieldsAppend(xs: seq<string>, ys: seq<string>)
    ensures NonBlankFields(xs + ys) == NonBlankFields(xs) + NonBlankFields(ys)
  {
    if xs == [] {
      assert xs + ys == ys;
    } else {
      var zs := xs + ys;
      assert zs[0] == xs[0];
      assert zs[1..] == xs[1..] + ys;
      NonBlankFieldsAppend(xs[1..], ys);
      var e := FieldEntry(xs[0]);
      assert NonBlankFields(zs) == e + NonBlankFields(xs[1..] + ys);
      assert e + (NonBlankFields(xs[1..]) + NonBlankFields(ys))
          == (e + NonBlankFields(xs[1..])) + NonBlankFields(ys);
    }
  }

  /**
   * `ProxyConfig::parse_ip_pool`, given the value of `IP_POOL` (`None` when
   * it is unset): split on ',', trim each field, drop the empty ones.
   */
  function ParseIpPool(ipPoolVar: Option<string>): (pool: seq<string>)
    ensures forall ip :: ip in pool ==> ip != "" && IsTrimmed(ip) && ',' !in ip
  {
    var fields := Split(ipPoolVar.UnwrapOr(DefaultIpPool), ',');
    NonBlankFieldsClean(fields);
    NonBlankFields(fields)
  }

  /** An unset `IP_POOL` gives the loopback address alone. */
  lemma ParseIpPoolUnset()
    ensures ParseIpPool(None) == ["127.0.0.1"]
  {
    SplitSingle(DefaultIpPool, ',');
    assert TrimStart(DefaultIpPool) == DefaultIpPool;
    assert TrimEnd(DefaultIpPool) == DefaultIpPool;
  }

  /** A single field yields its trimmed form, or nothing when it is blank. */
  lemma ParseIpPoolField(f: string)
    requires ',' !in f
    ensures ParseIpPool(Some(f)) == if AllWhitespace(f) then [] else [Trim(f)]
  {
    SplitSingle(f, ',');
    assert NonBlankFields([f]) == FieldEntry(f);
  }

  /**
   * Fields are kept in input order: the pool of `a + "," + b` is the pool of
   * `a` followed by the pool of `b`.
   */
  lemma ParseIpPoolAppend(a: string, b: string)
    ensures ParseIpPool(Some(a + "," + b)) == ParseIpPool(Some(a)) + ParseIpPool(Some(b))
  {
    SplitAppend(a, b, ',');
    NonBlankFieldsAppend(Split(a, ','), Split(b, ','));
  }

  /**
   * `ProxyConfig::validate`: the pool, the user name and the password must
   * be non-empty, checked in that order; the first failing check's message
   * is returned.
   */
  function Validate(config: ProxyConfig): (r: Result<(), string>)
    ensures r.Ok? <==> |config.ipAddresses| > 0 && config.username != "" && config.password != ""
    ensures r == Err(EmptyPoolError) <==> |config.ipAddresses| == 0
    ensures r == Err(EmptyUserError) <==> |config.ipAddresses| > 0 && config.username == ""
    ensures r == Err(EmptyPassError) <==>
              |config.ipAddresses| > 0 && config.username != "" && config.password == ""
  {
    if |config.ipAddresses| == 0 then Err(EmptyPoolError)
    else if config.username == "" then Err(EmptyUserError)
    else if config.password == "" then Err(EmptyPassError)
    else Ok(())
  }
}

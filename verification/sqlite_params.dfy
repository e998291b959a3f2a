/**
 * Connection parameters of a SQLite database, read from a connection string
 * such as `file:dev.db?connection_limit=4&db_name=main`: the scheme is
 * stripped, the text before the first `?` is the database file, and the
 * `k=v` pairs after the last `?` set the connection limit, the attached
 * database's name and the socket timeout.
 *
 * The two host queries the parser makes become parameters: the set of paths
 * that name a directory, and the number of physical CPUs.
 */
module SqliteParameters {
  import opened Wrappers

  /** Name the database is attached under when the string does not say. */
  const DefaultSchemaName: string := "quaint"
  /** Socket timeout, in seconds, when the string does not say. */
  const DefaultSocketTimeout: nat := 5
  const U32Max: nat := 0xFFFF_FFFF
  const U64Max: nat := 0xFFFF_FFFF_FFFF_FFFF
  /** `usize` on the 64-bit targets the engine is built for. */
  const UsizeMax: nat := U64Max

  datatype SqliteParams = SqliteParams(connectionLimit: nat, filePath: string, dbName: string, socketTimeout: nat)

  /** Where the parser would panic; such inputs end with `Panic` here. */
  datatype PanicReason =
    | ParameterWithoutValue(parameter: string)
    | ConnectionLimitTooLarge(limit: nat)

  datatype Error =
    | DatabaseUrlIsInvalid(path: string)
    | InvalidConnectionArguments
    | Panic(reason: PanicReason)

  datatype Result<+T> = Ok(value: T) | Err(error: Error)

  // ---- string helpers with the semantics of Rust's `str` ----

  predicate StartsWith(s: string, prefix: string) {
    |prefix| <= |s| && s[..|prefix|] == prefix
  }

  /** `s` with every leading repetition of `prefix` removed. */
  function TrimStartMatches(s: string, prefix: string): (r: string)
    requires |prefix| > 0
    ensures !StartsWith(r, prefix)
    ensures |r| <= |s|
    decreases |s|
  {
    if StartsWith(s, prefix) then TrimStartMatches(s[|prefix|..], prefix) else s
  }

  /** Trimming keeps a tail of the string. */
  lemma {:induction false} TrimIsSuffix(s: string, prefix: string)
    requires |prefix| > 0
    ensures var r := TrimStartMatches(s, prefix); r == s[|s| - |r|..]
    decreases |s|
  {
    if StartsWith(s, prefix) {
      TrimIsSuffix(s[|prefix|..], prefix);
    }
  }

  /** `n` copies of `s`, one after the other. */
  function Repeat(s: string, n: nat): string {
    if n == 0 then [] else s + Repeat(s, n - 1)
  }

  /** What trimming removed is a number of copies of the prefix. */
  lemma {:induction false} TrimmedRepetitions(s: string, prefix: string) returns (n: nat)
    requires |prefix| > 0
    ensures s == Repeat(prefix, n) + TrimStartMatches(s, prefix)
    decreases |s|
  {
    if StartsWith(s, prefix) {
      var rest := s[|prefix|..];
      var m := TrimmedRepetitions(rest, prefix);
      n := m + 1;
      var trimmed := TrimStartMatches(rest, prefix);
      assert TrimStartMatches(s, prefix) == trimmed;
      assert s == prefix + rest;
      assert prefix + (Repeat(prefix, m) + trimmed) == (prefix + Repeat(prefix, m)) + trimmed;
    } else {
      n := 0;
      assert Repeat(prefix, 0) + s == s;
    }
  }

  /** Trimming does not see copies of the prefix already removed. */
  lemma {:induction false} TrimRepeated(s: string, prefix: string, n: nat)
    requires |prefix| > 0
    ensures TrimStartMatches(Repeat(prefix, n) + s, prefix) == TrimStartMatches(s, prefix)
  {
    if n > 0 {
      RepeatStep(s, prefix, n);
      TrimRepeated(s, prefix, n - 1);
    } else {
      assert Repeat(prefix, n) + s == s;
    }
  }

  lemma RepeatStep(s: string, prefix: string, n: nat)
    requires n > 0
    ensures StartsWith(Repeat(prefix, n) + s, prefix)
    ensures (Repeat(prefix, n) + s)[|prefix|..] == Repeat(prefix, n - 1) + s
  {
    var t := Repeat(prefix, n) + s;
    assert t == prefix + (Repeat(prefix, n - 1) + s);
    assert t[..|prefix|] == prefix;
  }

  /** The pieces of `s` between occurrences of `sep`, like `str::split`; never empty. */
  function Split(s: string, sep: char): (r: seq<string>)
    ensures |r| >= 1
    ensures forall k :: 0 <= k < |r| ==> sep !in r[k]
  {
    if |s| == 0 then [""]
    else
      var rest := Split(s[1..], sep);
      if s[0] == sep then [""] + rest
      else [[s[0]] + rest[0]] + rest[1..]
  }

  /** The pieces joined back with `sep` between them. */
  function Join(parts: seq<string>, sep: char): string
    requires |parts| >= 1
  {
    if |parts| == 1 then parts[0] else parts[0] + [sep] + Join(parts[1..], sep)
  }

  /** Splitting loses nothing: joining the pieces gives the string back. */
  lemma {:induction false} JoinSplit(s: string, sep: char)
    ensures Join(Split(s, sep), sep) == s
  {
    if |s| != 0 {
      var rest := Split(s[1..], sep);
      JoinSplit(s[1..], sep);
      if s[0] == sep {
        assert ([""] + rest)[1..] == rest;
      } else if |rest| > 1 {
        assert ([[s[0]] + rest[0]] + rest[1..])[1..] == rest[1..];
      }
    }
  }

  /** Splitting at a separator splits the two sides independently. */
  lemma {:induction false} SplitAppend(a: string, b: string, sep: char)
    ensures Split(a + [sep] + b, sep) == Split(a, sep) + Split(b, sep)
  {
    if |a| == 0 {
      assert a + [sep] + b == [sep] + b;
      assert ([sep] + b)[1..] == b;
    } else {
      assert (a + [sep] + b)[1..] == a[1..] + [sep] + b;
      SplitAppend(a[1..], b, sep);
    }
  }

  /** A string without the separator is one piece. */
  lemma {:induction false} SplitWithoutSeparator(s: string, sep: char)
    requires sep !in s
    ensures Split(s, sep) == [s]
  {
    if |s| != 0 {
      SplitWithoutSeparator(s[1..], sep);
      assert [s[0]] + s[1..] == s;
    }
  }

  /** Joining pieces free of the separator and splitting again gives the pieces back. */
  lemma {:induction false} SplitJoin(parts: seq<string>, sep: char)
    requires |parts| >= 1
    requires forall k :: 0 <= k < |parts| ==> sep !in parts[k]
    ensures Split(Join(parts, sep), sep) == parts
  {
    SplitWithoutSeparator(parts[0], sep);
    if |parts| > 1 {
      SplitJoin(parts[1..], sep);
      SplitAppend(parts[0], Join(parts[1..], sep), sep);
    }
  }

  /**
   * The first piece is the text before the first separator: a prefix free
   * of it, followed by the separator or by the end of the string; there is
   * more than one piece exactly when the separator occurs.
   */
  lemma FirstPiece(s: string, sep: char)
    ensures var first := Split(s, sep)[0];
      && StartsWith(s, first) && sep !in first
      && (|first| == |s| || s[|first|] == sep)
    ensures |Split(s, sep)| > 1 <==> sep in s
  {
    var parts := Split(s, sep);
    JoinSplit(s, sep);
    if |parts| > 1 {
      assert s == parts[0] + [sep] + Join(parts[1..], sep);
      assert s[|parts[0]|] == sep;
    } else {
      assert s == parts[0];
    }
  }

  /**
   * The last piece is the text after the last separator: a suffix, preceded
   * by the separator when there is more than one piece.
   */
  lemma LastPiece(s: string, sep: char)
    ensures var parts := Split(s, sep); var n := |s| - |parts[|parts| - 1]|;
      && 0 <= n && s[n..] == parts[|parts| - 1]
      && (|parts| > 1 ==> n > 0 && s[n - 1] == sep)
  {
    JoinSplit(s, sep);
    JoinLast(Split(s, sep), sep);
  }

  lemma {:induction false} JoinLast(parts: seq<string>, sep: char)
    requires |parts| >= 1
    ensures var j, last := Join(parts, sep), parts[|parts| - 1]; var n := |j| - |last|;
      && 0 <= n && j[n..] == last
      && (|parts| > 1 ==> n > 0 && j[n - 1] == sep)
  {
    if |parts| > 1 {
      JoinLast(parts[1..], sep);
      var rest := Join(parts[1..], sep);
      assert Join(parts, sep) == (parts[0] + [sep]) + rest;
    }
  }

  // ---- unsigned integers, as `str::parse::<u64>` reads them ----

  predicate IsDigit(c: char) {
    '0' <= c <= '9'
  }

  predicate AllDigits(s: string) {
    forall k :: 0 <= k < |s| ==> IsDigit(s[k])
  }

  function DigitValue(c: char): nat
    requires IsDigit(c)
  {
    c as int - '0' as int
  }

  /** The value of a string of decimal digits, most significant first. */
  function DigitsValue(s: string): nat
    requires AllDigits(s)
  {
    if |s| == 0 then 0 else DigitsValue(s[..|s| - 1]) * 10 + DigitValue(s[|s| - 1])
  }

  /**
   * An optional `+` and at least one decimal digit, with a value of at most
   * `max`; anything else (empty, a lone `+`, a `-`, any other character,
   * an overflow) is rejected.
   */
  function ParseUnsigned(s: string, max: nat): (r: Option<nat>)
    ensures r.Some? ==> r.value <= max
    ensures s == "" || s == "+" ==> r.None?
  {
    var digits := if |s| > 0 && s[0] == '+' then s[1..] else s;
    if |digits| == 0 || !AllDigits(digits) then None
    else if DigitsValue(digits) <= max then Some(DigitsValue(digits))
    else None
  }

  function Digit(n: nat): (c: char)
    requires n < 10
    ensures IsDigit(c) && DigitValue(c) == n
  {
    ('0' as int + n) as char
  }

  /** The decimal representation of `n`, without leading zeros. */
  function Decimal(n: nat): (r: string)
    ensures |r| >= 1 && AllDigits(r)
  {
    if n < 10 then [Digit(n)] else Decimal(n / 10) + [Digit(n % 10)]
  }

  lemma {:induction false} DecimalValue(n: nat)
    ensures DigitsValue(Decimal(n)) == n
  {
    if n >= 10 {
      DecimalValue(n / 10);
      var r := Decimal(n);
      assert r[..|r| - 1] == Decimal(n / 10);
    }
  }

  /**
   * Every number up to `max` is read back from its decimal form, with or
   * without a leading `+`; the number after `max` is rejected.
   */
  lemma ParseDecimal(n: nat, max: nat)
    ensures n <= max ==> ParseUnsigned(Decimal(n), max) == Some(n) && ParseUnsigned("+" + Decimal(n), max) == Some(n)
    ensures ParseUnsigned(Decimal(max + 1), max).None?
  {
    DecimalValue(n);
    DecimalValue(max + 1);
    assert ("+" + Decimal(n))[1..] == Decimal(n);
  }

  /**
   * The strings read as `n` are exactly the decimal form of `n` behind any
   * number of zeros and an optional `+`, when `n` fits; all others are
   * rejected.
   */
  lemma ParseUnsignedForms(s: string, max: nat, n: nat)
    ensures ParseUnsigned(s, max) == Some(n) <==>
      n <= max && exists z: nat :: s == Repeat("0", z) + Decimal(n) || s == "+" + Repeat("0", z) + Decimal(n)
  {
    if ParseUnsigned(s, max) == Some(n) {
      var z := ParsedForm(s, max, n);
      assert s == Repeat("0", z) + Decimal(n) || s == "+" + Repeat("0", z) + Decimal(n);
    }
    if n <= max && exists z: nat :: s == Repeat("0", z) + Decimal(n) || s == "+" + Repeat("0", z) + Decimal(n) {
      var z: nat :| s == Repeat("0", z) + Decimal(n) || s == "+" + Repeat("0", z) + Decimal(n);
      FormParsed(s, max, n, z);
    }
  }

  lemma ParsedForm(s: string, max: nat, n: nat) returns (z: nat)
    requires ParseUnsigned(s, max) == Some(n)
    ensures s == Repeat("0", z) + Decimal(n) || s == "+" + Repeat("0", z) + Decimal(n)
  {
    if |s| > 0 && s[0] == '+' {
      var digits := s[1..];
      assert |digits| >= 1 && AllDigits(digits) && DigitsValue(digits) == n;
      z := CanonicalDigits(digits);
      var zeros, dec := Repeat("0", z), Decimal(n);
      assert s == "+" + digits;
      assert "+" + (zeros + dec) == "+" + zeros + dec;
    } else {
      assert |s| >= 1 && AllDigits(s) && DigitsValue(s) == n;
      z := CanonicalDigits(s);
    }
  }

  lemma FormParsed(s: string, max: nat, n: nat, z: nat)
    requires n <= max
    requires s == Repeat("0", z) + Decimal(n) || s == "+" + Repeat("0", z) + Decimal(n)
    ensures ParseUnsigned(s, max) == Some(n)
  {
    var t := Repeat("0", z) + Decimal(n);
    ZeroPaddedDigits(z, n);
    assert |t| > 0 && AllDigits(t) && DigitsValue(t) == n;
    if s == t {
      assert IsDigit(t[0]);
    } else {
      assert s[1..] == t;
    }
  }

  lemma ZeroPaddedDigits(z: nat, n: nat)
    ensures var t := Repeat("0", z) + Decimal(n); |t| > 0 && AllDigits(t) && DigitsValue(t) == n
  {
    ZerosAreZeros(z);
    LeadingZerosValue(Repeat("0", z), Decimal(n));
    DecimalValue(n);
  }

  /** Leading zeros and a `+` do not change the value read. */
  lemma LeadingZerosExample(max: nat)
    requires 7 <= max
    ensures ParseUnsigned("007", max) == Some(7) && ParseUnsigned("+0", max) == Some(0)
  {
    ParseUnsignedForms("007", max, 7);
    assert "007" == Repeat("0", 2) + Decimal(7);
    ParseUnsignedForms("+0", max, 0);
    assert "+0" == "+" + Repeat("0", 0) + Decimal(0);
  }

  lemma {:induction false} ZerosAreZeros(z: nat)
    ensures |Repeat("0", z)| == z && forall k :: 0 <= k < z ==> Repeat("0", z)[k] == '0'
  {
    if z > 0 {
      ZerosAreZeros(z - 1);
    }
  }

  lemma {:induction false} RepeatSnoc(s: string, n: nat)
    ensures Repeat(s, n) + s == Repeat(s, n + 1)
  {
    if n > 0 {
      RepeatSnoc(s, n - 1);
    }
  }

  lemma {:induction false} AllZerosValue(s: string)
    requires forall k :: 0 <= k < |s| ==> s[k] == '0'
    ensures AllDigits(s) && DigitsValue(s) == 0
  {
    if |s| > 0 {
      AllZerosValue(s[..|s| - 1]);
    }
  }

  lemma {:induction false} LeadingZerosValue(zs: string, t: string)
    requires forall k :: 0 <= k < |zs| ==> zs[k] == '0'
    requires AllDigits(t)
    ensures AllDigits(zs + t) && DigitsValue(zs + t) == DigitsValue(t)
  {
    if |t| == 0 {
      assert zs + t == zs;
      AllZerosValue(zs);
    } else {
      LeadingZerosValue(zs, t[..|t| - 1]);
      assert (zs + t)[..|zs + t| - 1] == zs + t[..|t| - 1];
    }
  }

  /** Every non-empty string of digits is the decimal form of its value behind some zeros. */
  lemma {:induction false} CanonicalDigits(t: string) returns (z: nat)
    requires |t| >= 1 && AllDigits(t)
    ensures t == Repeat("0", z) + Decimal(DigitsValue(t))
  {
    var c := t[|t| - 1];
    assert Digit(DigitValue(c)) == c;
    if |t| == 1 {
      z := 0;
      assert t == [c];
    } else {
      var t' := t[..|t| - 1];
      var z' := CanonicalDigits(t');
      var v' := DigitsValue(t');
      var v := v' * 10 + DigitValue(c);
      assert t == t' + [c];
      if v' == 0 {
        RepeatSnoc("0", z');
        z := z' + 1;
        assert Decimal(v) == [c];
      } else {
        assert v / 10 == v' && v % 10 == DigitValue(c);
        z := z';
      }
    }
  }

  /** Strings that hold a character other than a digit after the optional `+` are rejected. */
  lemma ParseRejectsNonDigits(s: string, max: nat, k: nat)
    requires k < |s| && !IsDigit(s[k]) && !(k == 0 && s[k] == '+')
    ensures ParseUnsigned(s, max).None?
  {
    if |s| > 0 && s[0] == '+' {
      assert s[1..][k - 1] == s[k];
    }
  }

  // ---- the parameters after `?` ----

  /** The key and value of one `k=v` parameter: the text before the first `=` and between the first and second. */
  function ParameterPair(kv: string): (r: Result<(string, string)>)
    ensures r.Err? <==> '=' !in kv
    ensures r.Err? ==> r.error == Panic(ParameterWithoutValue(kv))
    ensures r.Ok? ==> StartsWith(kv, r.value.0 + "=" + r.value.1) && '=' !in r.value.0 && '=' !in r.value.1
    ensures r.Ok? ==> var n := |r.value.0| + 1 + |r.value.1|; n == |kv| || kv[n] == '='
  {
    var parts := Split(kv, '=');
    FirstPiece(kv, '=');
    if |parts| < 2 then Err(Panic(ParameterWithoutValue(kv)))
    else
      JoinSplit(kv, '=');
      assert kv == parts[0] + "=" + Join(parts[1..], '=');
      FirstPiece(Join(parts[1..], '='), '=');
      SplitJoin(parts[1..], '=');
      Ok((parts[0], parts[1]))
  }

  /** Each parameter as a pair, stopping at the first one without `=`. */
  function ParameterPairs(kvs: seq<string>): (r: Result<seq<(string, string)>>)
    ensures r.Ok? <==> forall k :: 0 <= k < |kvs| ==> '=' in kvs[k]
    ensures r.Ok? ==> |r.value| == |kvs| && forall k :: 0 <= k < |kvs| ==> ParameterPair(kvs[k]) == Ok(r.value[k])
    ensures r.Err? ==> exists k :: 0 <= k < |kvs| && r.error == Panic(ParameterWithoutValue(kvs[k]))
  {
    if |kvs| == 0 then Ok([])
    else
      match ParameterPair(kvs[0])
      case Err(e) => Err(e)
      case Ok(kv) =>
        match ParameterPairs(kvs[1..])
        case Err(e) => Err(e)
        case Ok(rest) =>
          assert forall k :: 1 <= k < |kvs| ==> kvs[k] == kvs[1..][k - 1];
          Ok([kv] + rest)
  }

  /** The settings the parameters can change, with the attached name still optional. */
  datatype Settings = Settings(connectionLimit: nat, dbName: Option<string>, socketTimeout: nat)

  predicate KnownKey(k: string) {
    k == "connection_limit" || k == "db_name" || k == "socket_timeout"
  }

  /**
   * One parameter applied to the settings: a known key sets its own setting
   * and nothing else, a number that does not parse is an error, and an
   * unknown key leaves the settings alone.
   */
  function ApplyParameter(kv: (string, string), s: Settings): (r: Result<Settings>)
    ensures r.Err? <==> Malformed(kv)
    ensures r.Err? ==> r.error == InvalidConnectionArguments
    ensures !KnownKey(kv.0) ==> r == Ok(s)
    ensures r.Ok? && kv.0 == "connection_limit" ==>
      r.value == s.(connectionLimit := r.value.connectionLimit) && ParseUnsigned(kv.1, UsizeMax) == Some(r.value.connectionLimit)
    ensures r.Ok? && kv.0 == "db_name" ==> r.value == s.(dbName := Some(kv.1))
    ensures r.Ok? && kv.0 == "socket_timeout" ==>
      r.value == s.(socketTimeout := r.value.socketTimeout) && ParseUnsigned(kv.1, U64Max) == Some(r.value.socketTimeout)
  {
    var (k, v) := kv;
    if k == "connection_limit" then
      match ParseUnsigned(v, UsizeMax)
      case None => Err(InvalidConnectionArguments)
      case Some(n) => Ok(s.(connectionLimit := n))
    else if k == "db_name" then Ok(s.(dbName := Some(v)))
    else if k == "socket_timeout" then
      match ParseUnsigned(v, U64Max)
      case None => Err(InvalidConnectionArguments)
      case Some(n) => Ok(s.(socketTimeout := n))
    else Ok(s)
  }

  /** The parameters applied in order, stopping at the first that does not parse. */
  function ApplyParameters(kvs: seq<(string, string)>, s: Settings): (r: Result<Settings>)
    ensures r.Err? ==> r.error == InvalidConnectionArguments
    ensures r.Ok? && s.socketTimeout <= U64Max ==> r.value.socketTimeout <= U64Max
  {
    if |kvs| == 0 then Ok(s)
    else
      match ApplyParameter(kvs[0], s)
      case Err(e) => Err(e)
      case Ok(s') => ApplyParameters(kvs[1..], s')
  }

  /** The value of the last parameter with this key, if any. */
  function LastValue(kvs: seq<(string, string)>, key: string): Option<string> {
    if |kvs| == 0 then None
    else if kvs[|kvs| - 1].0 == key then Some(kvs[|kvs| - 1].1)
    else LastValue(kvs[..|kvs| - 1], key)
  }

  /** A numeric parameter whose value does not parse. */
  predicate Malformed(kv: (string, string)) {
    || (kv.0 == "connection_limit" && ParseUnsigned(kv.1, UsizeMax).None?)
    || (kv.0 == "socket_timeout" && ParseUnsigned(kv.1, U64Max).None?)
  }

  /** Applying a concatenation applies the first part, then the second. */
  lemma {:induction false} ApplyAppend(a: seq<(string, string)>, b: seq<(string, string)>, s: Settings)
    ensures ApplyParameters(a + b, s) ==
      match ApplyParameters(a, s)
      case Err(e) => Err(e)
      case Ok(s') => ApplyParameters(b, s')
  {
    if |a| != 0 {
      assert (a + b)[0] == a[0];
      assert (a + b)[1..] == a[1..] + b;
      match ApplyParameter(a[0], s)
      case Err(_) =>
      case Ok(s') => ApplyAppend(a[1..], b, s');
    } else {
      assert a + b == b;
    }
  }

  /** Applying fails exactly when some numeric parameter does not parse. */
  lemma {:induction false} ApplyFails(kvs: seq<(string, string)>, s: Settings)
    ensures ApplyParameters(kvs, s).Err? <==> exists k :: 0 <= k < |kvs| && Malformed(kvs[k])
  {
    if |kvs| != 0 {
      match ApplyParameter(kvs[0], s)
      case Err(_) =>
      case Ok(s') =>
        ApplyFails(kvs[1..], s');
        if exists k :: 0 <= k < |kvs| && Malformed(kvs[k]) {
          var k :| 0 <= k < |kvs| && Malformed(kvs[k]);
          assert kvs[1..][k - 1] == kvs[k];
        }
        if exists k :: 0 <= k < |kvs[1..]| && Malformed(kvs[1..][k]) {
          var k :| 0 <= k < |kvs[1..]| && Malformed(kvs[1..][k]);
          assert kvs[k + 1] == kvs[1..][k];
        }
    }
  }

  lemma {:induction false} LastValueCons(x: (string, string), rest: seq<(string, string)>, key: string)
    ensures LastValue([x] + rest, key) ==
      if LastValue(rest, key).Some? then LastValue(rest, key) else if x.0 == key then Some(x.1) else None
  {
    if |rest| != 0 {
      var xs := [x] + rest;
      assert xs[|xs| - 1] == rest[|rest| - 1];
      assert xs[..|xs| - 1] == [x] + rest[..|rest| - 1];
      LastValueCons(x, rest[..|rest| - 1], key);
    } else {
      assert ([x] + rest)[..0] == [];
    }
  }

  /**
   * After a successful application each setting is the value of the last
   * parameter with its key, or its previous value when there is none.
   */
  lemma {:induction false} ApplyTakesLast(kvs: seq<(string, string)>, s: Settings)
    requires ApplyParameters(kvs, s).Ok?
    ensures var r, limit, timeout := ApplyParameters(kvs, s).value, LastValue(kvs, "connection_limit"), LastValue(kvs, "socket_timeout");
      && (limit.None? ==> r.connectionLimit == s.connectionLimit)
      && (limit.Some? ==> ParseUnsigned(limit.value, UsizeMax) == Some(r.connectionLimit))
      && r.dbName == (if LastValue(kvs, "db_name").Some? then LastValue(kvs, "db_name") else s.dbName)
      && (timeout.None? ==> r.socketTimeout == s.socketTimeout)
      && (timeout.Some? ==> ParseUnsigned(timeout.value, U64Max) == Some(r.socketTimeout))
  {
    if |kvs| == 0 {
    } else {
      var s' := ApplyParameter(kvs[0], s).value;
      ApplyTakesLast(kvs[1..], s');
      assert kvs == [kvs[0]] + kvs[1..];
      LastValueCons(kvs[0], kvs[1..], "connection_limit");
      LastValueCons(kvs[0], kvs[1..], "db_name");
      LastValueCons(kvs[0], kvs[1..], "socket_timeout");
    }
  }

  /** A parameter with an unknown key changes nothing, wherever it stands. */
  lemma UnknownKeyIgnored(kvs: seq<(string, string)>, i: nat, kv: (string, string), s: Settings)
    requires i <= |kvs| && !KnownKey(kv.0)
    ensures ApplyParameters(kvs[..i] + [kv] + kvs[i..], s) == ApplyParameters(kvs, s)
  {
    assert kvs == kvs[..i] + kvs[i..];
    ApplyAppend(kvs[..i] + [kv], kvs[i..], s);
    ApplyAppend(kvs[..i], [kv], s);
    ApplyAppend(kvs[..i], kvs[i..], s);
  }

  // ---- the whole connection string ----

  /** The scheme `StripScheme` removes: `file:` if the string starts with it, else `sqlite:`. */
  function Scheme(url: string): (r: string)
    ensures |r| > 0
  {
    if StartsWith(url, "file:") then "file:" else "sqlite:"
  }

  /** The connection string without its scheme: a tail of it that no longer starts with the scheme. */
  function StripScheme(url: string): (r: string)
    ensures !StartsWith(r, Scheme(url))
    ensures |r| <= |url| && r == url[|url| - |r|..]
  {
    TrimIsSuffix(url, Scheme(url));
    if StartsWith(url, "file:") then TrimStartMatches(url, "file:") else TrimStartMatches(url, "sqlite:")
  }

  /** What `StripScheme` removes is the scheme, some number of times. */
  lemma StripSchemeRepetitions(url: string) returns (n: nat)
    ensures url == Repeat(Scheme(url), n) + StripScheme(url)
  {
    n := TrimmedRepetitions(url, Scheme(url));
  }

  /** The settings the parameters start from. */
  function DefaultSettings(physicalCpus: nat): Settings {
    Settings(physicalCpus * 2 + 1, None, DefaultSocketTimeout)
  }

  /**
   * The settings read from the parameters after the last `?` of the
   * scheme-less string, or the defaults when it has no `?`.
   */
  function QuerySettings(path: string, defaults: Settings): (r: Result<Settings>)
    ensures '?' !in path ==> r == Ok(defaults)
    ensures '?' in path ==>
      exists i :: 0 <= i < |path| && path[i] == '?' && '?' !in path[i + 1..] && r == ParametersSettings(path[i + 1..], defaults)
    ensures r.Ok? && defaults.socketTimeout <= U64Max ==> r.value.socketTimeout <= U64Max
  {
    FirstPiece(path, '?');
    LastPiece(path, '?');
    var pathParts := Split(path, '?');
    if |pathParts| > 1 then ParametersSettings(pathParts[|pathParts| - 1], defaults)
    else Ok(defaults)
  }

  /** The settings of the `&`-separated parameters of a query, applied to `defaults`. */
  function ParametersSettings(query: string, defaults: Settings): (r: Result<Settings>)
    ensures r.Ok? && defaults.socketTimeout <= U64Max ==> r.value.socketTimeout <= U64Max
  {
    match ParameterPairs(Split(query, '&'))
    case Err(e) => Err(e)
    case Ok(kvs) => ApplyParameters(kvs, defaults)
  }

  /** The database file: the scheme-less string up to its first `?`. */
  function FilePart(url: string): (r: string)
    ensures '?' !in r && StartsWith(StripScheme(url), r)
    ensures |r| == |StripScheme(url)| || StripScheme(url)[|r|] == '?'
  {
    FirstPiece(StripScheme(url), '?');
    Split(StripScheme(url), '?')[0]
  }

  /**
   * The parameters of a SQLite connection string. A file part that names a
   * directory is refused before any parameter is read; otherwise the pairs
   * after the last `?` override the defaults, and the connection limit must
   * fit in 32 bits.
   */
  function TryFrom(url: string, directories: set<string>, physicalCpus: nat): (r: Result<SqliteParams>)
    ensures r.Ok? ==> r.value.connectionLimit <= U32Max && r.value.socketTimeout <= U64Max
    ensures r.Ok? ==> r.value.filePath == FilePart(url)
    ensures r.Err? && r.error.DatabaseUrlIsInvalid? <==> FilePart(url) in directories
    ensures FilePart(url) in directories ==> r == Err(DatabaseUrlIsInvalid(FilePart(url)))
  {
    var pathStr := FilePart(url);
    if pathStr in directories then Err(DatabaseUrlIsInvalid(pathStr))
    else
      match QuerySettings(StripScheme(url), DefaultSettings(physicalCpus))
      case Err(e) => Err(e)
      case Ok(st) =>
        if st.connectionLimit > U32Max then Err(Panic(ConnectionLimitTooLarge(st.connectionLimit)))
        else Ok(SqliteParams(st.connectionLimit, pathStr, if st.dbName.Some? then st.dbName.value else DefaultSchemaName, st.socketTimeout))
  }

  // ---- properties of the whole parser ----

  /** A character the prefix lacks ends any match of the prefix. */
  lemma StartsWithAppend(a: string, b: string, c: char, prefix: string)
    requires c !in prefix
    ensures StartsWith(a + [c] + b, prefix) <==> StartsWith(a, prefix)
  {
    var t := a + [c] + b;
    if |prefix| <= |a| {
      assert t[..|prefix|] == a[..|prefix|];
    } else if |prefix| <= |t| {
      assert t[..|prefix|][|a|] == c != prefix[|a|];
    }
  }

  lemma {:induction false} TrimAppend(a: string, b: string, c: char, prefix: string)
    requires |prefix| > 0 && c !in prefix
    ensures TrimStartMatches(a + [c] + b, prefix) == TrimStartMatches(a, prefix) + [c] + b
    decreases |a|
  {
    StartsWithAppend(a, b, c, prefix);
    if StartsWith(a, prefix) {
      assert (a + [c] + b)[|prefix|..] == a[|prefix|..] + [c] + b;
      TrimAppend(a[|prefix|..], b, c, prefix);
    }
  }

  /** The scheme is stripped from the part before the first `?` only. */
  lemma StripSchemeQuery(base: string, q: string)
    ensures StripScheme(base + "?" + q) == StripScheme(base) + "?" + q
  {
    StartsWithAppend(base, q, '?', "file:");
    TrimAppend(base, q, '?', "file:");
    TrimAppend(base, q, '?', "sqlite:");
  }

  lemma NoQuestionMarkAfterStrip(base: string)
    requires '?' !in base
    ensures '?' !in StripScheme(base)
  {
    var prefix := if StartsWith(base, "file:") then "file:" else "sqlite:";
    var n := TrimmedRepetitions(base, prefix);
    var r := StripScheme(base);
    forall i | 0 <= i < |r| ensures r[i] != '?' {
      assert r[i] == base[|Repeat(prefix, n)| + i];
    }
  }

  /** For `base?q`, the file is the scheme-less `base` and `q` is the parameter segment. */
  lemma QueryLayout(base: string, q: string)
    requires '?' !in base && '?' !in q
    ensures Split(StripScheme(base) + "?" + q, '?') == [StripScheme(base), q]
  {
    NoQuestionMarkAfterStrip(base);
    SplitAppend(StripScheme(base), q, '?');
    SplitWithoutSeparator(StripScheme(base), '?');
    SplitWithoutSeparator(q, '?');
  }

  /** For `base?q` the file is the scheme-less `base`, and the parameters come from `q`, split at `&`. */
  lemma QuerySettingsOf(base: string, q: string, defaults: Settings)
    requires '?' !in base && '?' !in q
    ensures FilePart(base + "?" + q) == StripScheme(base)
    ensures QuerySettings(StripScheme(base + "?" + q), defaults) == ParametersSettings(q, defaults)
  {
    StripSchemeQuery(base, q);
    QueryLayout(base, q);
  }

  /**
   * Without a `?` the whole scheme-less string is the file, the attached
   * name is "quaint", the socket timeout 5 seconds and the connection limit
   * twice the physical CPUs plus one, which must fit in 32 bits.
   */
  lemma DefaultsWithoutParameters(url: string, directories: set<string>, physicalCpus: nat)
    requires '?' !in StripScheme(url) && StripScheme(url) !in directories
    ensures var limit := physicalCpus * 2 + 1;
      TryFrom(url, directories, physicalCpus) ==
        if limit <= U32Max then Ok(SqliteParams(limit, StripScheme(url), DefaultSchemaName, DefaultSocketTimeout))
        else Err(Panic(ConnectionLimitTooLarge(limit)))
  {
    SplitWithoutSeparator(StripScheme(url), '?');
  }

  /** Only the parameters after the last `?` are read: anything between the first and the last is ignored. */
  lemma OnlyLastSegmentParsed(base: string, mid: string, q: string, directories: set<string>, physicalCpus: nat)
    requires '?' !in base && '?' !in q
    ensures TryFrom(base + "?" + mid + "?" + q, directories, physicalCpus) == TryFrom(base + "?" + q, directories, physicalCpus)
  {
    var url, url' := base + "?" + mid + "?" + q, base + "?" + q;
    var defaults := DefaultSettings(physicalCpus);
    assert FilePart(url) == FilePart(url') && QuerySettings(StripScheme(url), defaults) == QuerySettings(StripScheme(url'), defaults) by {
      Segments(base, mid, q);
      LastPieceSettings(StripScheme(url), q, defaults);
      QuerySettingsOf(base, q, defaults);
    }
    SameParts(url, url', directories, physicalCpus);
  }

  /** Two strings with the same file part and the same settings parse alike. */
  lemma SameParts(url: string, url': string, directories: set<string>, physicalCpus: nat)
    requires FilePart(url) == FilePart(url')
    requires QuerySettings(StripScheme(url), DefaultSettings(physicalCpus)) == QuerySettings(StripScheme(url'), DefaultSettings(physicalCpus))
    ensures TryFrom(url, directories, physicalCpus) == TryFrom(url', directories, physicalCpus)
  {
  }

  lemma LastPieceSettings(path: string, q: string, defaults: Settings)
    requires |Split(path, '?')| > 1 && Split(path, '?')[|Split(path, '?')| - 1] == q
    ensures QuerySettings(path, defaults) == ParametersSettings(q, defaults)
  {
  }

  /** The `?`-separated pieces of `base?mid?q` after the scheme is stripped. */
  lemma Segments(base: string, mid: string, q: string)
    requires '?' !in base && '?' !in q
    ensures Split(StripScheme(base + "?" + mid + "?" + q), '?') == [StripScheme(base)] + Split(mid, '?') + [q]
  {
    var rest := mid + "?" + q;
    assert base + "?" + mid + "?" + q == base + "?" + rest;
    StripSchemeQuery(base, rest);
    NoQuestionMarkAfterStrip(base);
    SplitAppend(StripScheme(base), rest, '?');
    SplitAppend(mid, q, '?');
    SplitWithoutSeparator(StripScheme(base), '?');
    SplitWithoutSeparator(q, '?');
  }

  lemma {:induction false} ParameterPairsAppend(kvs: seq<string>, kv: string)
    ensures ParameterPairs(kvs + [kv]) ==
      match ParameterPairs(kvs)
      case Err(e) => Err(e)
      case Ok(ps) =>
        match ParameterPair(kv)
        case Err(e) => Err(e)
        case Ok(p) => Ok(ps + [p])
  {
    if |kvs| == 0 {
      assert kvs + [kv] == [kv];
      assert [kv][1..] == [];
      match ParameterPair(kv)
      case Err(_) =>
      case Ok(p) => assert [p] + [] == [] + [p];
    } else {
      assert (kvs + [kv])[0] == kvs[0];
      assert (kvs + [kv])[1..] == kvs[1..] + [kv];
      ParameterPairsAppend(kvs[1..], kv);
      match ParameterPair(kvs[0])
      case Err(_) =>
      case Ok(first) =>
        match ParameterPairs(kvs[1..])
        case Err(_) =>
        case Ok(rest) =>
          match ParameterPair(kv)
          case Err(_) =>
          case Ok(p) => assert [first] + (rest + [p]) == ([first] + rest) + [p];
    }
  }

  /** The key of `k=v` is `k` when `k` holds no `=`. */
  lemma KeyOfPair(k: string, v: string)
    requires '=' !in k
    ensures ParameterPair(k + "=" + v).Ok? && ParameterPair(k + "=" + v).value.0 == k
  {
    SplitAppend(k, v, '=');
    SplitWithoutSeparator(k, '=');
  }

  /** Appending `&k=v` to the parameter segment appends one pair with key `k`, unless an earlier parameter panics. */
  lemma AppendedPair(q: string, k: string, v: string)
    requires '&' !in k && '&' !in v && '=' !in k
    ensures var before, after := ParameterPairs(Split(q, '&')), ParameterPairs(Split(q + "&" + k + "=" + v, '&'));
      && (before.Err? ==> after == before)
      && (before.Ok? ==> after.Ok? && exists v' :: after.value == before.value + [(k, v')])
  {
    var kv := k + "=" + v;
    assert q + "&" + k + "=" + v == q + "&" + kv;
    SplitAppend(q, kv, '&');
    SplitWithoutSeparator(kv, '&');
    ParameterPairsAppend(Split(q, '&'), kv);
    KeyOfPair(k, v);
    var p := ParameterPair(kv).value;
    assert p == (k, p.1);
  }

  /** Appending a parameter with an unknown key changes nothing. */
  lemma UnknownParameterIgnored(base: string, q: string, k: string, v: string, directories: set<string>, physicalCpus: nat)
    requires '?' !in base && '?' !in q && '?' !in k && '?' !in v
    requires '&' !in k && '&' !in v && '=' !in k && !KnownKey(k)
    ensures TryFrom(base + "?" + q + "&" + k + "=" + v, directories, physicalCpus) == TryFrom(base + "?" + q, directories, physicalCpus)
  {
    var q' := q + "&" + k + "=" + v;
    assert base + "?" + q + "&" + k + "=" + v == base + "?" + q';
    UnknownParameterSettings(base, q, k, v, DefaultSettings(physicalCpus));
  }

  lemma UnknownParameterSettings(base: string, q: string, k: string, v: string, defaults: Settings)
    requires '?' !in base && '?' !in q && '?' !in k && '?' !in v
    requires '&' !in k && '&' !in v && '=' !in k && !KnownKey(k)
    ensures var q' := q + "&" + k + "=" + v;
      && FilePart(base + "?" + q') == FilePart(base + "?" + q)
      && QuerySettings(StripScheme(base + "?" + q'), defaults) == QuerySettings(StripScheme(base + "?" + q), defaults)
  {
    QuerySettingsOf(base, q, defaults);
    QuerySettingsOf(base, q + "&" + k + "=" + v, defaults);
    UnknownPairIgnored(q, k, v, defaults);
  }

  /** A trailing parameter with an unknown key changes nothing. */
  lemma UnknownPairIgnored(q: string, k: string, v: string, defaults: Settings)
    requires '&' !in k && '&' !in v && '=' !in k && !KnownKey(k)
    ensures ParametersSettings(q + "&" + k + "=" + v, defaults) == ParametersSettings(q, defaults)
  {
    var q' := q + "&" + k + "=" + v;
    AppendedPair(q, k, v);
    var before := ParameterPairs(Split(q, '&'));
    if before.Ok? {
      var ps := before.value;
      var v' :| ParameterPairs(Split(q', '&')).value == ps + [(k, v')];
      assert ps[..|ps|] + [(k, v')] + ps[|ps|..] == ps + [(k, v')];
      UnknownKeyIgnored(ps, |ps|, (k, v'), defaults);
    }
  }

  /**
   * Each setting is the value of the last parameter with its key: the
   * attached name as given, the numbers as parsed; without one, the default.
   */
  lemma LastParameterWins(base: string, q: string, kvs: seq<(string, string)>, directories: set<string>, physicalCpus: nat)
    requires '?' !in base && '?' !in q && ParameterPairs(Split(q, '&')) == Ok(kvs)
    requires TryFrom(base + "?" + q, directories, physicalCpus).Ok?
    ensures var r, limit, timeout := TryFrom(base + "?" + q, directories, physicalCpus).value,
        LastValue(kvs, "connection_limit"), LastValue(kvs, "socket_timeout");
      && r.dbName == (if LastValue(kvs, "db_name").Some? then LastValue(kvs, "db_name").value else DefaultSchemaName)
      && (limit.None? ==> r.connectionLimit == physicalCpus * 2 + 1)
      && (limit.Some? ==> ParseUnsigned(limit.value, UsizeMax) == Some(r.connectionLimit))
      && (timeout.None? ==> r.socketTimeout == DefaultSocketTimeout)
      && (timeout.Some? ==> ParseUnsigned(timeout.value, U64Max) == Some(r.socketTimeout))
  {
    QuerySettingsOf(base, q, DefaultSettings(physicalCpus));
    ApplyTakesLast(kvs, DefaultSettings(physicalCpus));
  }

  /** The string is refused as invalid arguments exactly when a numeric parameter does not parse. */
  lemma MalformedNumberRejected(base: string, q: string, kvs: seq<(string, string)>, directories: set<string>, physicalCpus: nat)
    requires '?' !in base && '?' !in q && ParameterPairs(Split(q, '&')) == Ok(kvs)
    requires StripScheme(base) !in directories
    ensures TryFrom(base + "?" + q, directories, physicalCpus) == Err(InvalidConnectionArguments)
        <==> exists i :: 0 <= i < |kvs| && Malformed(kvs[i])
  {
    QuerySettingsOf(base, q, DefaultSettings(physicalCpus));
    ApplyFails(kvs, DefaultSettings(physicalCpus));
  }

  /** A parameter without `=` ends the parse with a panic, whatever else the string holds. */
  lemma ParameterWithoutValuePanics(base: string, q: string, i: nat, directories: set<string>, physicalCpus: nat)
    requires '?' !in base && '?' !in q && StripScheme(base) !in directories
    requires i < |Split(q, '&')| && '=' !in Split(q, '&')[i]
    ensures var r := TryFrom(base + "?" + q, directories, physicalCpus);
      r.Err? && r.error.Panic? && r.error.reason.ParameterWithoutValue?
  {
    QuerySettingsOf(base, q, DefaultSettings(physicalCpus));
  }

  /** A trailing `?` leaves an empty parameter, which has no `=`. */
  lemma TrailingQuestionMarkPanics(base: string, directories: set<string>, physicalCpus: nat)
    requires '?' !in base && StripScheme(base) !in directories
    ensures TryFrom(base + "?", directories, physicalCpus) == Err(Panic(ParameterWithoutValue("")))
  {
    assert base + "?" == base + "?" + "";
    QuerySettingsOf(base, "", DefaultSettings(physicalCpus));
  }

  /** One leading copy of the prefix is trimmed like any other. */
  lemma TrimOnce(prefix: string, rest: string)
    requires |prefix| > 0
    ensures StartsWith(prefix + rest, prefix)
    ensures TrimStartMatches(prefix + rest, prefix) == TrimStartMatches(rest, prefix)
  {
    assert (prefix + rest)[..|prefix|] == prefix;
    assert (prefix + rest)[|prefix|..] == rest;
  }

  lemma DiffersAtStart(s: string, prefix: string)
    requires |s| > 0 && |prefix| > 0 && s[0] != prefix[0]
    ensures !StartsWith(s, prefix)
  {
    if |prefix| <= |s| {
      assert s[..|prefix|][0] == s[0];
    }
  }

  /** The default parameters of a scheme-less `dev.db`, on a host whose limit fits in 32 bits. */
  predicate DevDbDefaults(r: Result<SqliteParams>, physicalCpus: nat) {
    r == Ok(SqliteParams(physicalCpus * 2 + 1, "dev.db", DefaultSchemaName, DefaultSocketTimeout))
  }

  /** "dev.db" names the file `dev.db`. */
  lemma NoSchemeExample(directories: set<string>, physicalCpus: nat)
    requires physicalCpus * 2 + 1 <= U32Max && "dev.db" !in directories
    ensures DevDbDefaults(TryFrom("dev.db", directories, physicalCpus), physicalCpus)
  {
    DiffersAtStart("dev.db", "file:");
    DiffersAtStart("dev.db", "sqlite:");
    DefaultsWithoutParameters("dev.db", directories, physicalCpus);
  }

  /** "file:dev.db" names the file `dev.db`. */
  lemma FileSchemeExample(directories: set<string>, physicalCpus: nat)
    requires physicalCpus * 2 + 1 <= U32Max && "dev.db" !in directories
    ensures DevDbDefaults(TryFrom("file:dev.db", directories, physicalCpus), physicalCpus)
  {
    assert "file:dev.db" == "file:" + "dev.db";
    TrimOnce("file:", "dev.db");
    DiffersAtStart("dev.db", "file:");
    DefaultsWithoutParameters("file:dev.db", directories, physicalCpus);
  }

  /** "sqlite:dev.db" names the file `dev.db`. */
  lemma SqliteSchemeExample(directories: set<string>, physicalCpus: nat)
    requires physicalCpus * 2 + 1 <= U32Max && "dev.db" !in directories
    ensures DevDbDefaults(TryFrom("sqlite:dev.db", directories, physicalCpus), physicalCpus)
  {
    assert "sqlite:dev.db" == "sqlite:" + "dev.db";
    DiffersAtStart("sqlite:dev.db", "file:");
    TrimOnce("sqlite:", "dev.db");
    DiffersAtStart("dev.db", "sqlite:");
    DefaultsWithoutParameters("sqlite:dev.db", directories, physicalCpus);
  }

  /** The `file:` scheme is stripped as often as it repeats. */
  lemma RepeatedSchemeExample(directories: set<string>, physicalCpus: nat)
    requires physicalCpus * 2 + 1 <= U32Max && "dev.db" !in directories
    ensures DevDbDefaults(TryFrom("file:file:dev.db", directories, physicalCpus), physicalCpus)
  {
    assert StripScheme("file:file:dev.db") == "dev.db" by {
      assert "file:file:dev.db" == "file:" + ("file:" + "dev.db");
      TrimOnce("file:", "file:" + "dev.db");
      TrimOnce("file:", "dev.db");
      DiffersAtStart("dev.db", "file:");
    }
    DefaultsWithoutParameters("file:file:dev.db", directories, physicalCpus);
  }

  /** After `file:`, a `sqlite:` is kept as part of the file name. */
  lemma MixedSchemeExample(directories: set<string>, physicalCpus: nat)
    requires physicalCpus * 2 + 1 <= U32Max && "sqlite:dev.db" !in directories
    ensures TryFrom("file:sqlite:dev.db", directories, physicalCpus)
      == Ok(SqliteParams(physicalCpus * 2 + 1, "sqlite:dev.db", DefaultSchemaName, DefaultSocketTimeout))
  {
    assert "file:sqlite:dev.db" == "file:" + "sqlite:dev.db";
    TrimOnce("file:", "sqlite:dev.db");
    DiffersAtStart("sqlite:dev.db", "file:");
    DefaultsWithoutParameters("file:sqlite:dev.db", directories, physicalCpus);
  }
}

/** Topic names: printing a shard ID into one (`shardmanager.go`) and reading it back (`utils.go`). */
module Topics {
  import opened Common

  const LISTENING_SHARD_TOPIC := "listeningShard"
  const COLLATION_PREFIX := "shardCollations_"
  const INT64_LIMIT := 0x8000_0000_0000_0000

  predicate IsInt64(i: int) {
    -INT64_LIMIT <= i < INT64_LIMIT
  }

  // ---------------------------------------------------------------- strconv

  function Digit(d: nat): char
    requires d < 10
  {
    ('0' as int + d) as char
  }

  predicate IsDigit(c: char) {
    '0' as int <= c as int <= '9' as int
  }

  function FormatNat(n: nat): string {
    if n < 10 then [Digit(n)] else FormatNat(n / 10) + [Digit(n % 10)]
  }

  /** `strconv.FormatInt(i, 10)`, which `%d` agrees with. */
  function FormatInt(i: int): string {
    if i < 0 then "-" + FormatNat(-i) else FormatNat(i)
  }

  function ParseDigits(s: string): Option<int> {
    if s == "" then Some(0)
    else
      var last := s[|s| - 1];
      match ParseDigits(s[..|s| - 1])
      case None => None
      case Some(v) => if IsDigit(last) then Some(10 * v + (last as int - '0' as int)) else None
  }

  function Signed(magnitude: int, negative: bool): int {
    if negative then -magnitude else magnitude
  }

  function ParseMagnitude(digits: string, negative: bool): Result<int> {
    if digits == "" then Err
    else
      match ParseDigits(digits)
      case None => Err
      case Some(v) =>
        if IsInt64(Signed(v, negative)) then Ok(Signed(v, negative)) else Err
  }

  /** `strconv.ParseInt(s, 10, 64)`: an optional sign, at least one digit, and a value that fits. */
  function ParseInt(s: string): Result<int> {
    if s == "" then Err
    else if s[0] == '+' || s[0] == '-' then ParseMagnitude(s[1..], s[0] == '-')
    else ParseMagnitude(s, false)
  }

  // ---------------------------------------------------------------- what a decimal is

  ghost predicate AllDigits(s: string) {
    forall c | c in s :: IsDigit(c)
  }

  ghost function Pow10(n: nat): nat {
    if n == 0 then 1 else 10 * Pow10(n - 1)
  }

  /** The first digit counts for as many powers of ten as digits follow it. */
  ghost function PositionalValue(s: string): int {
    if s == "" then 0 else (s[0] as int - '0' as int) * Pow10(|s| - 1) + PositionalValue(s[1..])
  }

  /** The one way of writing a natural number: digits, no leading zero but in zero itself. */
  ghost predicate IsNumeral(s: string, n: int) {
    s != "" && AllDigits(s) && (s[0] == '0' ==> s == "0") && PositionalValue(s) == n
  }

  ghost predicate IsDecimal(s: string, i: int) {
    if i < 0 then s != "" && s[0] == '-' && IsNumeral(s[1..], -i) else IsNumeral(s, i)
  }

  ghost function Unsigned(s: string): string {
    if s != "" && (s[0] == '+' || s[0] == '-') then s[1..] else s
  }

  /** An optional sign, then digits only, at least one of them; the value fits 64 bits. */
  ghost predicate Denotes(s: string, i: int) {
    && Unsigned(s) != "" && AllDigits(Unsigned(s)) && IsInt64(i)
    && i == if s[0] == '-' then -PositionalValue(Unsigned(s)) else PositionalValue(Unsigned(s))
  }

  lemma {:induction false} ValueAppend(s: string, d: char)
    ensures PositionalValue(s + [d]) == 10 * PositionalValue(s) + (d as int - '0' as int)
  {
    if s == "" {
      assert (s + [d])[1..] == "";
      assert PositionalValue(s + [d]) == (d as int - '0' as int) * Pow10(0) + PositionalValue("");
    } else {
      ValueAppend(s[1..], d);
      assert (s + [d])[1..] == s[1..] + [d];
      ShiftedDigit(s[0] as int - '0' as int, |s| - 1);
    }
  }

  lemma ShiftedDigit(d: int, n: nat)
    ensures d * Pow10(n + 1) == 10 * (d * Pow10(n))
  {
  }

  /** `ParseDigits` reads digit strings, and no others, by position. */
  lemma {:induction false} ParseDigitsExactly(s: string)
    ensures ParseDigits(s) == if AllDigits(s) then Some(PositionalValue(s)) else None
  {
    if s == "" {
    } else {
      var init, last := s[..|s| - 1], s[|s| - 1];
      assert s == init + [last];
      ParseDigitsExactly(init);
      ValueAppend(init, last);
      assert AllDigits(s) <==> AllDigits(init) && IsDigit(last);
    }
  }

  /** `ParseInt` accepts exactly the signed decimals that fit, and reads them by position. */
  lemma ParseIntExactly(s: string)
    ensures forall i :: ParseInt(s) == Ok(i) <==> Denotes(s, i)
    ensures ParseInt(s).Err? <==> forall i :: !Denotes(s, i)
  {
    if s != "" {
      ParseDigitsExactly(Unsigned(s));
      if ParseInt(s).Ok? {
        assert Denotes(s, ParseInt(s).value);
      }
    }
  }

  lemma {:induction false} FormatNatIsNumeral(n: nat)
    ensures IsNumeral(FormatNat(n), n)
    ensures n > 0 ==> FormatNat(n)[0] != '0'
  {
    ValueAppend(if n < 10 then "" else FormatNat(n / 10), Digit(n % 10));
    if n < 10 {
      assert FormatNat(n) == "" + [Digit(n % 10)];
    } else {
      FormatNatIsNumeral(n / 10);
      assert FormatNat(n)[0] == FormatNat(n / 10)[0];
    }
  }

  /** `FormatInt` writes the decimal of its argument: sign only if negative, no leading zero. */
  lemma FormatIsDecimal(i: int)
    ensures IsDecimal(FormatInt(i), i)
  {
    if i < 0 {
      FormatNatIsNumeral(-i);
      assert FormatInt(i)[1..] == FormatNat(-i);
    } else {
      FormatNatIsNumeral(i);
    }
  }

  /** Printing and parsing an int64 gives it back. */
  lemma ParseFormat(i: int)
    requires IsInt64(i)
    ensures ParseInt(FormatInt(i)) == Ok(i)
  {
    FormatIsDecimal(i);
    var s := FormatInt(i);
    if i >= 0 {
      assert IsDigit(s[0]);
    }
    assert Unsigned(s) == if i < 0 then s[1..] else s;
    assert Denotes(s, i);
    ParseIntExactly(s);
  }

  // ---------------------------------------------------------------- topics

  function CollationsTopic(shardID: int): string {
    COLLATION_PREFIX + FormatInt(shardID)
  }

  /** `strings.Replace(s, pattern, "", -1)`: every occurrence goes, left to right. */
  function RemoveAll(s: string, pattern: string): string
    requires pattern != ""
  {
    if |s| < |pattern| then s
    else if s[..|pattern|] == pattern then RemoveAll(s[|pattern|..], pattern)
    else [s[0]] + RemoveAll(s[1..], pattern)
  }

  function ShardTopicToShardID(topic: string): string {
    RemoveAll(topic, COLLATION_PREFIX)
  }

  ghost predicate OccursAt(s: string, pattern: string, k: nat) {
    k + |pattern| <= |s| && s[k..k + |pattern|] == pattern
  }

  ghost predicate FirstAt(s: string, pattern: string, k: nat) {
    OccursAt(s, pattern, k) && forall j: nat | j < k :: !OccursAt(s, pattern, j)
  }

  lemma OneFurther(s: string, pattern: string, j: nat)
    requires s != ""
    ensures OccursAt(s[1..], pattern, j) <==> OccursAt(s, pattern, j + 1)
  {
    if j + 1 + |pattern| <= |s| {
      assert s[1..][j..j + |pattern|] == s[j + 1..j + 1 + |pattern|];
    }
  }

  lemma KeepsFirst(s: string, pattern: string)
    requires s != "" && pattern != "" && !OccursAt(s, pattern, 0)
    ensures RemoveAll(s, pattern) == [s[0]] + RemoveAll(s[1..], pattern)
  {
    if |s| < |pattern| {
      assert s == [s[0]] + s[1..];
    } else {
      assert s[0..|pattern|] == s[..|pattern|];
    }
  }

  lemma {:induction false} KeepsUpTo(s: string, pattern: string, k: nat)
    requires pattern != "" && k <= |s| && forall j: nat | j < k :: !OccursAt(s, pattern, j)
    ensures RemoveAll(s, pattern) == s[..k] + RemoveAll(s[k..], pattern)
  {
    if k == 0 {
      assert s[0..] == s;
    } else {
      KeepsFirst(s, pattern);
      forall j: nat | j < k - 1 ensures !OccursAt(s[1..], pattern, j) {
        OneFurther(s, pattern, j);
      }
      KeepsUpTo(s[1..], pattern, k - 1);
      assert s[1..][k - 1..] == s[k..];
      assert s[..k] == [s[0]] + s[1..][..k - 1];
    }
  }

  /** What `strings.Replace` by nothing does, which leaves no choice: up to the first occurrence the
      string stays, the occurrence goes, and so on after it; without one the string stays. */
  lemma RemoveAllExactly(s: string, pattern: string)
    requires pattern != ""
    ensures (forall j: nat :: !OccursAt(s, pattern, j)) ==> RemoveAll(s, pattern) == s
    ensures forall k: nat | FirstAt(s, pattern, k) ::
              RemoveAll(s, pattern) == s[..k] + RemoveAll(s[k + |pattern|..], pattern)
  {
    if forall j: nat :: !OccursAt(s, pattern, j) {
      KeepsUpTo(s, pattern, |s|);
      assert s[|s|..] == "" && s[..|s|] == s;
    }
    forall k: nat | FirstAt(s, pattern, k)
      ensures RemoveAll(s, pattern) == s[..k] + RemoveAll(s[k + |pattern|..], pattern)
    {
      KeepsUpTo(s, pattern, k);
      assert s[k..][..|pattern|] == pattern && s[k..][|pattern|..] == s[k + |pattern|..];
    }
  }

  lemma DecimalHasNoLetter(s: string, i: int)
    requires IsDecimal(s, i)
    ensures 's' !in s
  {
    if i < 0 {
      assert s == [s[0]] + s[1..];
    }
  }

  lemma FirstCharacter(s: string, pattern: string, j: nat)
    requires pattern != "" && OccursAt(s, pattern, j)
    ensures pattern[0] in s
  {
    assert s[j..j + |pattern|][0] == s[j];
  }

  lemma NoPrefixIn(shardID: int)
    ensures forall j: nat :: !OccursAt(FormatInt(shardID), COLLATION_PREFIX, j)
  {
    FormatIsDecimal(shardID);
    var s := FormatInt(shardID);
    DecimalHasNoLetter(s, shardID);
    forall j: nat ensures !OccursAt(s, COLLATION_PREFIX, j) {
      if OccursAt(s, COLLATION_PREFIX, j) {
        FirstCharacter(s, COLLATION_PREFIX, j);
      }
    }
  }

  /** A collation topic is the prefix and the decimal of its shard. */
  lemma TopicIsDecimal(shardID: int)
    ensures var topic := CollationsTopic(shardID);
            |COLLATION_PREFIX| <= |topic| && topic[..|COLLATION_PREFIX|] == "shardCollations_"
            && IsDecimal(topic[|COLLATION_PREFIX|..], shardID)
  {
    FormatIsDecimal(shardID);
    assert CollationsTopic(shardID)[|COLLATION_PREFIX|..] == FormatInt(shardID);
  }

  /** A bare decimal and a full topic name the same shard, and parsing either gives it back. */
  lemma TopicRoundTrip(shardID: int)
    requires IsInt64(shardID)
    ensures ShardTopicToShardID(CollationsTopic(shardID)) == FormatInt(shardID)
    ensures ShardTopicToShardID(FormatInt(shardID)) == FormatInt(shardID)
    ensures ParseInt(ShardTopicToShardID(CollationsTopic(shardID))) == Ok(shardID)
    ensures ParseInt(ShardTopicToShardID(FormatInt(shardID))) == Ok(shardID)
  {
    var topic := CollationsTopic(shardID);
    NoPrefixIn(shardID);
    RemoveAllExactly(FormatInt(shardID), COLLATION_PREFIX);
    assert topic[0..|COLLATION_PREFIX|] == COLLATION_PREFIX && topic[|COLLATION_PREFIX|..] == FormatInt(shardID);
    assert FirstAt(topic, COLLATION_PREFIX, 0);
    RemoveAllExactly(topic, COLLATION_PREFIX);
    ParseFormat(shardID);
  }

  /** Distinct shards never meet in a topic, nor does any shard take the preference topic. */
  lemma TopicsDistinct(a: int, b: int)
    requires IsInt64(a) && IsInt64(b)
    ensures CollationsTopic(a) == CollationsTopic(b) <==> a == b
    ensures CollationsTopic(a) != LISTENING_SHARD_TOPIC
  {
    TopicRoundTrip(a);
    TopicRoundTrip(b);
    assert CollationsTopic(a)[0] == 's' && LISTENING_SHARD_TOPIC[0] == 'l';
  }
}

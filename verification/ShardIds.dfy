/** Block ids, and the text that stands for a shard in the map of last blocks. */
module ShardIds {

  /** Workchain, shard and sequence number identify a block. */
  datatype Block = Block(workchain: int, shard: int, seqNo: nat)

  predicate SameShard(a: Block, b: Block) {
    a.workchain == b.workchain && a.shard == b.shard
  }

  function Digit(d: nat): char
    requires d < 10
  {
    "0123456789"[d]
  }

  function Digits(n: nat): string {
    if n < 10 then [Digit(n)] else Digits(n / 10) + [Digit(n % 10)]
  }

  function Decimal(n: int): string {
    if n < 0 then "-" + Digits(-n) else Digits(n)
  }

  function GetShardId(b: Block): string {
    Decimal(b.workchain) + "|" + Decimal(b.shard)
  }

  lemma {:induction false} DigitsInjective(m: nat, n: nat)
    requires Digits(m) == Digits(n)
    ensures m == n
  {
    NonEmptyDigits(m);
    NonEmptyDigits(n);
    if m >= 10 {
      var a, b := Digits(m / 10), Digits(n / 10);
      assert (a + [Digit(m % 10)])[..|a|] == a && (b + [Digit(n % 10)])[..|b|] == b;
      assert (a + [Digit(m % 10)])[|a|] == (b + [Digit(n % 10)])[|b|];
      DigitsInjective(m / 10, n / 10);
    }
  }

  lemma {:induction false} NonEmptyDigits(n: nat)
    ensures if n < 10 then |Digits(n)| == 1 else |Digits(n)| > 1
    ensures forall i :: 0 <= i < |Digits(n)| ==> '0' <= Digits(n)[i] <= '9'
  {
    if n >= 10 { NonEmptyDigits(n / 10); }
  }

  lemma DecimalInjective(m: int, n: int)
    requires Decimal(m) == Decimal(n)
    ensures m == n
  {
    NonEmptyDigits(if m < 0 then -m else m);
    NonEmptyDigits(if n < 0 then -n else n);
    assert (m < 0) == (Decimal(m)[0] == '-');
    assert (n < 0) == (Decimal(n)[0] == '-');
    if m < 0 {
      assert Decimal(m)[1..] == Digits(-m) && Decimal(n)[1..] == Digits(-n);
      DigitsInjective(-m, -n);
    } else {
      DigitsInjective(m, n);
    }
  }

  lemma NoBar(n: int)
    ensures '|' !in Decimal(n)
  {
    NonEmptyDigits(if n < 0 then -n else n);
  }

  lemma BarSplits(a: string, b: string, c: string, d: string)
    requires a + "|" + b == c + "|" + d && '|' !in a && '|' !in c
    ensures a == c && b == d
  {
    var s := a + "|" + b;
    assert s[|a|] == '|' && s[|c|] == '|';
    assert forall i :: 0 <= i < |a| ==> s[i] == a[i] != '|';
    assert forall i :: 0 <= i < |c| ==> s[i] == c[i] != '|';
    assert |a| == |c|;
    assert a == s[..|a|] == c;
    assert b == s[|a| + 1..] == d;
  }

  /** Two blocks share the text exactly when they share workchain and shard. */
  lemma ShardIdIdentifies(a: Block, b: Block)
    ensures GetShardId(a) == GetShardId(b) <==> SameShard(a, b)
  {
    if GetShardId(a) == GetShardId(b) {
      NoBar(a.workchain);
      NoBar(b.workchain);
      BarSplits(Decimal(a.workchain), Decimal(a.shard), Decimal(b.workchain), Decimal(b.shard));
      DecimalInjective(a.workchain, b.workchain);
      DecimalInjective(a.shard, b.shard);
    }
  }
}

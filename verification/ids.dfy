/** Token and edge identities. A token id is a side letter (`s` for source,
    `t` for target) followed by a decimal number; an edge id is the list of
    its member ids joined with `-`. */
module Identity {
  import opened Seqs

  datatype Side = Source | Target

  /** A token id such as `s3` or `t12`: the side that owns the token and its
      numeric suffix. */
  datatype Id = Id(side: Side, num: nat)

  predicate IsDigitChar(c: char) {
    '0' <= c <= '9'
  }

  function Digit(d: nat): (c: char)
    requires d < 10
    ensures IsDigitChar(c)
  {
    ('0' as int + d) as char
  }

  /** The decimal rendering of `n`, as JavaScript's `'s' + i` produces it. */
  function NatStr(n: nat): (s: string)
    ensures |s| > 0
    ensures forall i | 0 <= i < |s| :: IsDigitChar(s[i])
    ensures |s| == 1 <==> n < 10
  {
    if n < 10 then [Digit(n)] else NatStr(n / 10) + [Digit(n % 10)]
  }

  lemma {:induction false} NatStrInjective(m: nat, n: nat)
    requires NatStr(m) == NatStr(n)
    ensures m == n
    decreases m
  {
    if m >= 10 {
      var sm, sn := NatStr(m), NatStr(n);
      assert n >= 10;
      assert sm[|sm| - 1] == Digit(m % 10) && sn[|sn| - 1] == Digit(n % 10);
      assert NatStr(m / 10) == sm[..|sm| - 1] == sn[..|sn| - 1] == NatStr(n / 10);
      NatStrInjective(m / 10, n / 10);
    }
  }

  /** The printed form of a token id. */
  function Name(id: Id): (s: string)
    ensures |s| > 0 && '-' !in s
  {
    [if id.side == Source then 's' else 't'] + NatStr(id.num)
  }

  lemma NameInjective(x: Id, y: Id)
    requires Name(x) == Name(y)
    ensures x == y
  {
    assert Name(x)[1..] == NatStr(x.num) && Name(y)[1..] == NatStr(y.num);
    NatStrInjective(x.num, y.num);
  }

  /** `words.join('-')`. */
  function Join(words: seq<string>): string {
    if |words| == 0 then ""
    else if |words| == 1 then words[0]
    else words[0] + "-" + Join(words[1..])
  }

  /** The position of the first `-` in `s`, or `|s|`. */
  function DashAt(s: string): (k: nat)
    ensures k <= |s|
  {
    if s == [] || s[0] == '-' then 0 else 1 + DashAt(s[1..])
  }

  lemma {:induction false} DashAfterWord(x: string, rest: string)
    requires '-' !in x
    requires rest == [] || rest[0] == '-'
    ensures DashAt(x + rest) == |x|
    decreases |x|
  {
    if x != [] {
      assert (x + rest)[1..] == x[1..] + rest;
      DashAfterWord(x[1..], rest);
    } else {
      assert x + rest == rest;
    }
  }

  /** The first word of a join ends at its first `-`. */
  lemma JoinHead(a: seq<string>)
    requires |a| > 0
    requires forall i | 0 <= i < |a| :: |a[i]| > 0 && '-' !in a[i]
    ensures DashAt(Join(a)) == |a[0]|
    ensures Join(a)[..|a[0]|] == a[0]
    ensures |Join(a)| == |a[0]| <==> |a| == 1
    ensures |a| > 1 ==> Join(a)[|a[0]| + 1..] == Join(a[1..])
  {
    if |a| == 1 {
      DashAfterWord(a[0], "");
      assert a[0] + "" == a[0] == Join(a);
    } else {
      DashAfterWord(a[0], "-" + Join(a[1..]));
      assert Join(a) == a[0] + ("-" + Join(a[1..]));
    }
  }

  /** Joining words that are non-empty and free of `-` loses nothing. */
  lemma {:induction false} JoinInjective(a: seq<string>, b: seq<string>)
    requires forall i | 0 <= i < |a| :: |a[i]| > 0 && '-' !in a[i]
    requires forall i | 0 <= i < |b| :: |b[i]| > 0 && '-' !in b[i]
    requires Join(a) == Join(b)
    ensures a == b
    decreases |a|
  {
    if a != [] && b != [] {
      JoinHead(a);
      JoinHead(b);
      if |a| > 1 {
        JoinInjective(a[1..], b[1..]);
        assert a == [a[0]] + a[1..] && b == [b[0]] + b[1..];
      }
    }
  }

  function Names(ids: seq<Id>): (r: seq<string>)
    ensures |r| == |ids|
    ensures forall i | 0 <= i < |ids| :: r[i] == Name(ids[i])
  {
    seq(|ids|, i requires 0 <= i < |ids| => Name(ids[i]))
  }

  /** The id of an edge over `ids`: `ids.join('-')`. */
  function EdgeName(ids: seq<Id>): string {
    Join(Names(ids))
  }

  /** Edge ids name their members faithfully: two edges get the same id
      exactly when they list the same token ids in the same order. */
  lemma EdgeNameInjective(a: seq<Id>, b: seq<Id>)
    ensures EdgeName(a) == EdgeName(b) <==> a == b
  {
    if EdgeName(a) == EdgeName(b) {
      JoinInjective(Names(a), Names(b));
      forall i | 0 <= i < |a| ensures a[i] == b[i] {
        NameInjective(a[i], b[i]);
      }
    }
  }

  /** The model's reading of `Utils.next_id`: one more than the largest
      numeric suffix among `ids`, 0 when there are none. */
  function NextId(ids: seq<Id>): (n: nat)
    ensures forall k | 0 <= k < |ids| :: ids[k].num < n
    ensures ids == [] ==> n == 0
    ensures ids != [] ==> exists k | 0 <= k < |ids| :: ids[k].num + 1 == n
  {
    if ids == [] then 0
    else
      var n := NextId(ids[1..]);
      assert forall k | 1 <= k < |ids| :: ids[k] == ids[1..][k - 1];
      if ids[0].num + 1 >= n then ids[0].num + 1 else n
  }
}

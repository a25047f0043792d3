/**
 * The falling-character source (CharacterGenerator.ts): which characters a level
 * may produce, and the weighted pool one character is drawn from.
 *
 * `Math.random()` is a parameter `roll` with 0 <= roll < 1. Weights are exact
 * rationals (`real`) instead of floating-point numbers.
 */
module Characters {

  const Lower := "abcdefghijklmnopqrstuvwxyz"
  const Upper := "ABCDEFGHIJKLMNOPQRSTUVWXYZ"
  const Digits := "0123456789"
  const Specials := "!@#$%^&*()_+-=[]{}|;:,.<>?"
  const Vowels := "aeiouAEIOU"
  const CommonConsonants := "rstnlRSTNL"
  /** The characters of the first tier. */
  const Basic := "aeiourstnl"
  /** What a level below every tier produces. */
  const Fallback := "abc"

  /** The tier table in its insertion order: lowest level of each tier, and its characters. */
  const Tiers: seq<(int, string)> := [
    (1, Basic),
    (6, Lower),
    (11, Lower + Digits),
    (16, Lower + Upper + Digits),
    (21, Lower + Upper + Digits + Specials)]

  /** The characters a level produces: the tier with the largest threshold not above it. */
  function CharacterSet(level: int): (cs: string)
    ensures |cs| > 0
    ensures level < 1 <==> cs == Fallback
  {
    if level >= 21 then Lower + Upper + Digits + Specials
    else if level >= 16 then Lower + Upper + Digits
    else if level >= 11 then Lower + Digits
    else if level >= 6 then Lower
    else if level >= 1 then Basic
    else Fallback
  }

  /** What the table scan keeps after the first `i` tiers: the last one whose threshold the level reaches. */
  function LastReached(i: nat, level: int): string
    requires i <= |Tiers|
  {
    if i == 0 then ""
    else if level >= Tiers[i - 1].0 then Tiers[i - 1].1
    else LastReached(i - 1, level)
  }

  /** Scanning the whole table finds the tier `CharacterSet` names, and finds nothing below level 1. */
  lemma LastReachedTiers(level: int)
    ensures LastReached(|Tiers|, level) == (if level < 1 then "" else CharacterSet(level))
  {
    assert LastReached(1, level) == (if level >= 1 then Basic else "");
    assert LastReached(2, level) == (if level >= 6 then Lower else LastReached(1, level));
    assert LastReached(3, level) == (if level >= 11 then Lower + Digits else LastReached(2, level));
    assert LastReached(4, level) == (if level >= 16 then Lower + Upper + Digits else LastReached(3, level));
  }

  /** From level 1 on, each tier contains every character of the tiers below it. */
  lemma TiersNested(l1: int, l2: int, c: char)
    requires 1 <= l1 <= l2
    requires c in CharacterSet(l1)
    ensures c in CharacterSet(l2)
  {
    if l1 < 6 {
      BasicIsLower(c);
    }
  }

  lemma BasicIsLower(c: char)
    requires c in Basic
    ensures c in Lower
  {
    var i :| 0 <= i < |Basic| && Basic[i] == c;
    assert Basic[i] in Lower;
  }

  /** The fallback is not part of the first tier: level 0 can produce 'b', level 1 cannot. */
  lemma FallbackOutsideFirstTier()
    ensures 'b' in CharacterSet(0) && 'b' !in CharacterSet(1)
  {
  }

  /** `Math.ceil`. */
  function Ceil(x: real): (n: int)
    ensures x <= n as real < x + 1.0
  {
    -((-x).Floor)
  }

  /** The weight the pool uses for `c`: its entry, with an absent or zero entry reading as 1. */
  function Weight(weights: map<char, real>, c: char): real {
    if c in weights && weights[c] != 0.0 then weights[c] else 1.0
  }

  /** How many copies of a character of weight `w` go into the pool. */
  function Count(w: real): int {
    Ceil(w * 10.0)
  }

  function Repeat(c: char, n: int): (r: seq<char>)
    ensures |r| == if n < 0 then 0 else n
    ensures forall i :: 0 <= i < |r| ==> r[i] == c
  {
    if n <= 0 then [] else Repeat(c, n - 1) + [c]
  }

  /** Every weight strictly positive. */
  ghost predicate Positive(weights: map<char, real>) {
    forall c :: c in weights ==> weights[c] > 0.0
  }

  /** The weighted pool: each character of `cs`, in order, repeated `Count` times. */
  function Pool(cs: string, weights: map<char, real>): (pool: seq<char>)
    ensures forall c :: c in pool ==> c in cs
  {
    if cs == [] then []
    else
      var last := cs[|cs| - 1];
      var front := Pool(cs[..|cs| - 1], weights);
      var pool := front + Repeat(last, Count(Weight(weights, last)));
      assert forall c :: c in pool ==> c in front || c == last;
      pool
  }

  /** Over distinct characters, the pool holds each character of `cs` exactly its count of times, and no other. */
  lemma {:induction false} PoolCounts(cs: string, weights: map<char, real>, c: char)
    requires Distinct(cs)
    ensures var n := Count(Weight(weights, c));
            multiset(Pool(cs, weights))[c] == if c in cs && n > 0 then n else 0
  {
    if cs != [] {
      var front, last := cs[..|cs| - 1], cs[|cs| - 1];
      assert cs == front + [last];
      assert Distinct(front);
      assert last !in front;
      PoolCounts(front, weights, c);
      PoolLast(cs, weights);
      RepeatMultiset(last, Count(Weight(weights, last)), c);
    }
  }

  lemma PoolLast(cs: string, weights: map<char, real>)
    requires cs != []
    ensures multiset(Pool(cs, weights)) ==
            multiset(Pool(cs[..|cs| - 1], weights)) + multiset(Repeat(cs[|cs| - 1], Count(Weight(weights, cs[|cs| - 1]))))
  {
  }

  lemma {:induction false} RepeatMultiset(x: char, n: int, c: char)
    ensures multiset(Repeat(x, n))[c] == if c == x then |Repeat(x, n)| else 0
  {
    if n > 0 {
      RepeatMultiset(x, n - 1, c);
    }
  }

  /** With positive weights every character of `cs` has at least one copy, so the pool is never smaller than `cs`. */
  lemma {:induction false} PoolCoversSet(cs: string, weights: map<char, real>)
    requires Positive(weights)
    ensures |Pool(cs, weights)| >= |cs|
  {
    if cs != [] {
      PoolCoversSet(cs[..|cs| - 1], weights);
      var w := Weight(weights, cs[|cs| - 1]);
      assert w > 0.0;
      assert Count(w) >= 1;
    }
  }

  /** The starting weight of a character. */
  function InitialWeight(c: char): real {
    if c in Vowels then 3.0
    else if c in CommonConsonants then 2.0
    else if c in Digits then 0.5
    else if c in Specials then 0.2
    else 0.0
  }

  /** The weight table a generator starts with: vowels, common consonants, digits and specials. */
  function InitialWeights(): (w: map<char, real>)
    ensures Positive(w)
  {
    map c | c in Vowels + CommonConsonants + Digits + Specials :: InitialWeight(c)
  }

  /** Copies per character in the starting pool: 30, 20, 5, 2, or 10 for any other character. */
  lemma InitialCounts(c: char)
    ensures Count(Weight(InitialWeights(), c)) ==
            if c in Vowels then 30
            else if c in CommonConsonants then 20
            else if c in Digits then 5
            else if c in Specials then 2
            else 10
  {
  }

  /** No character occurs twice in `s`. */
  predicate Distinct(s: string) {
    forall i, j :: 0 <= i < j < |s| ==> s[i] != s[j]
  }

  /** The position of a character in the last tier, -1 for one outside it. */
  function Rank(c: char): int {
    if 'a' <= c <= 'z' then c as int - 'a' as int
    else if 'A' <= c <= 'Z' then 26 + (c as int - 'A' as int)
    else if '0' <= c <= '9' then 52 + (c as int - '0' as int)
    else
      match c
      case '!' => 62 case '@' => 63 case '#' => 64 case '$' => 65 case '%' => 66 case '^' => 67
      case '&' => 68 case '*' => 69 case '(' => 70 case ')' => 71 case '_' => 72 case '+' => 73
      case '-' => 74 case '=' => 75 case '[' => 76 case ']' => 77 case '{' => 78 case '}' => 79
      case '|' => 80 case ';' => 81 case ':' => 82 case ',' => 83 case '.' => 84 case '<' => 85
      case '>' => 86 case '?' => 87 case _ => -1
  }

  /** Ranks strictly increase along `s`. */
  predicate Rising(s: string) {
    forall i, j :: 0 <= i < j < |s| ==> Rank(s[i]) < Rank(s[j])
  }

  lemma RankOfLower()
    ensures forall i :: 0 <= i < |Lower| ==> Rank(Lower[i]) == i
  {
  }

  lemma RankOfUpper()
    ensures forall i :: 0 <= i < |Upper| ==> Rank(Upper[i]) == 26 + i
  {
  }

  lemma RankOfDigits()
    ensures forall i :: 0 <= i < |Digits| ==> Rank(Digits[i]) == 52 + i
  {
  }

  lemma RankOfSpecials()
    ensures forall i :: 0 <= i < |Specials| ==> Rank(Specials[i]) == 62 + i
  {
  }

  /** The four character classes, each rising in rank, with every rank of one below every rank of the next. */
  lemma ClassesRising()
    ensures Rising(Lower) && Rising(Upper) && Rising(Digits) && Rising(Specials)
    ensures forall c :: c in Lower ==> 0 <= Rank(c) < 26
    ensures forall c :: c in Upper ==> 26 <= Rank(c) < 52
    ensures forall c :: c in Digits ==> 52 <= Rank(c) < 62
    ensures forall c :: c in Specials ==> 62 <= Rank(c) < 88
  {
    RankOfLower();
    RankOfUpper();
    RankOfDigits();
    RankOfSpecials();
  }

  lemma ClassesDisjoint()
    ensures forall c :: c in Upper ==> c !in Digits && c !in Specials
    ensures forall c :: c in Digits ==> c !in Specials
  {
    ClassesRising();
  }

  lemma RisingConcat(s: string, t: string)
    requires Rising(s) && Rising(t)
    requires forall x, y :: x in s && y in t ==> Rank(x) < Rank(y)
    ensures Rising(s + t)
  {
    forall i, j | 0 <= i < j < |s + t|
      ensures Rank((s + t)[i]) < Rank((s + t)[j])
    {
      if i < |s| && j >= |s| {
        assert (s + t)[i] in s && (s + t)[j] in t;
      }
    }
  }

  /** The order of the first tier's characters. */
  function BasicRank(c: char): int {
    match c
    case 'a' => 0 case 'e' => 1 case 'i' => 2 case 'o' => 3 case 'u' => 4
    case 'r' => 5 case 's' => 6 case 't' => 7 case 'n' => 8 case 'l' => 9 case _ => -1
  }

  lemma RankOfBasic()
    ensures forall i :: 0 <= i < |Basic| ==> BasicRank(Basic[i]) == i
  {
  }

  /** No tier lists a character twice. */
  lemma TiersDistinct()
    ensures forall k :: 0 <= k < |Tiers| ==> Distinct(Tiers[k].1)
  {
    ClassesRising();
    RisingConcat(Lower, Digits);
    RisingConcat(Lower, Upper);
    RisingConcat(Lower + Upper, Digits);
    RisingConcat(Lower + Upper + Digits, Specials);
    RankOfBasic();
  }

  /**
   * With the starting weights, the pool of a level holds each of its characters
   * 30, 20, 5, 2 or 10 times.
   */
  lemma InitialPoolCounts(level: int, c: char)
    requires c in CharacterSet(level)
    ensures multiset(Pool(CharacterSet(level), InitialWeights()))[c] ==
            if c in Vowels then 30
            else if c in CommonConsonants then 20
            else if c in Digits then 5
            else if c in Specials then 2
            else 10
  {
    var cs := CharacterSet(level);
    if level >= 1 {
      TiersDistinct();
      assert Distinct(cs) by {
        if level >= 21 { assert cs == Tiers[4].1; }
        else if level >= 16 { assert cs == Tiers[3].1; }
        else if level >= 11 { assert cs == Tiers[2].1; }
        else if level >= 6 { assert cs == Tiers[1].1; }
        else { assert cs == Tiers[0].1; }
      }
    } else {
      assert cs == Fallback;
      assert Distinct(cs);
    }
    PoolCounts(cs, InitialWeights(), c);
    InitialCounts(c);
  }

  /** `Math.floor(roll * n)` for a roll in [0, 1): an index into a pool of `n`. */
  function PoolIndex(roll: real, n: nat): (i: int)
    requires 0.0 <= roll < 1.0 && n > 0
    ensures 0 <= i < n
  {
    assert roll * n as real < n as real;
    (roll * n as real).Floor
  }

  /** The character a roll picks from a level's pool. */
  function Drawn(level: int, weights: map<char, real>, roll: real): char
    requires Positive(weights) && 0.0 <= roll < 1.0
  {
    var pool := Pool(CharacterSet(level), weights);
    PoolCoversSet(CharacterSet(level), weights);
    pool[PoolIndex(roll, |pool|)]
  }

  /** Every draw is a character of the level's set. */
  lemma DrawnInSet(level: int, weights: map<char, real>, roll: real)
    requires Positive(weights) && 0.0 <= roll < 1.0
    ensures Drawn(level, weights, roll) in CharacterSet(level)
  {
    PoolCoversSet(CharacterSet(level), weights);
  }

  /** `weights` with every character of `cs` set to `v`. */
  function SetAll(weights: map<char, real>, cs: string, v: real): (w: map<char, real>)
    ensures forall c :: c in cs ==> c in w && w[c] == v
    ensures forall c :: c !in cs ==> (c in w <==> c in weights) && (c in w ==> w[c] == weights[c])
  {
    map c | c in weights.Keys + (set x | x in cs) :: if c in cs then v else weights[c]
  }

  /** `weights` with the weight of every character of `cs` multiplied by 3/2. */
  function ScaleAll(weights: map<char, real>, cs: string): (w: map<char, real>)
    ensures forall c :: c in cs ==> c in w && w[c] == Weight(weights, c) * 1.5
    ensures forall c :: c !in cs ==> (c in w <==> c in weights) && (c in w ==> w[c] == weights[c])
  {
    map c | c in weights.Keys + (set x | x in cs) :: if c in cs then Weight(weights, c) * 1.5 else weights[c]
  }

  /** `SetAll` with a positive value keeps every weight positive. */
  lemma SetAllPositive(weights: map<char, real>, cs: string, v: real)
    requires Positive(weights) && v > 0.0
    ensures Positive(SetAll(weights, cs, v))
  {
  }

  /** `ScaleAll` keeps every weight positive. */
  lemma ScaleAllPositive(weights: map<char, real>, cs: string)
    requires Positive(weights)
    ensures Positive(ScaleAll(weights, cs))
  {
    var w := ScaleAll(weights, cs);
    forall c | c in w
      ensures w[c] > 0.0
    {
      if c in cs {
        assert Weight(weights, c) > 0.0;
      }
    }
  }

  /**
   * The weights after `updateWeights(level)`: above 10 digits weigh 1, above 15
   * upper-case weights grow by half, above 20 specials weigh 1/2.
   */
  function Reweighted(weights: map<char, real>, level: int): (w: map<char, real>)
    ensures Positive(weights) ==> Positive(w)
    ensures level <= 10 ==> w == weights
  {
    var w1 := if level > 10 then SetAll(weights, Digits, 1.0) else weights;
    var w2 := if level > 15 then ScaleAll(w1, Upper) else w1;
    var w3 := if level > 20 then SetAll(w2, Specials, 0.5) else w2;
    assert Positive(weights) ==> Positive(w3) by {
      if Positive(weights) {
        if level > 10 { SetAllPositive(weights, Digits, 1.0); }
        if level > 15 { ScaleAllPositive(w1, Upper); }
        if level > 20 { SetAllPositive(w2, Specials, 0.5); }
      }
    }
    w3
  }

  /** `c` has the same entry, or the same absence, in `after` as in `before`. */
  predicate Kept(before: map<char, real>, after: map<char, real>, c: char) {
    (c in after <==> c in before) && (c in after ==> after[c] == before[c])
  }

  /** Each table sets its own class only: the three updates never touch each other's characters. */
  lemma ReweightedTables(weights: map<char, real>, level: int)
    ensures var w := Reweighted(weights, level);
            && (level > 10 ==> forall c :: c in Digits ==> c in w && w[c] == 1.0)
            && (level > 20 ==> forall c :: c in Specials ==> c in w && w[c] == 0.5)
            && (level > 15 ==> forall c :: c in Upper ==> c in w && w[c] == Weight(weights, c) * 1.5)
            && (level <= 15 ==> forall c :: c in Upper ==> Kept(weights, w, c))
            && (level <= 20 ==> forall c :: c in Specials ==> Kept(weights, w, c))
            && (forall c :: c !in Digits && c !in Upper && c !in Specials ==> Kept(weights, w, c))
  {
    var w1 := if level > 10 then SetAll(weights, Digits, 1.0) else weights;
    var w2 := if level > 15 then ScaleAll(w1, Upper) else w1;
    ClassesDisjoint();
    assert level > 15 ==> forall c :: c in Upper ==> Weight(w1, c) == Weight(weights, c);
  }

  /**
   * Repeating an update above level 15 changes the weights again: upper-case
   * weights compound by 3/2 on every call.
   */
  lemma ReweightingCompounds(weights: map<char, real>, level: int)
    requires Positive(weights) && level > 15
    ensures Reweighted(Reweighted(weights, level), level) != Reweighted(weights, level)
  {
    var once := Reweighted(weights, level);
    var twice := Reweighted(once, level);
    ReweightedTables(weights, level);
    ReweightedTables(once, level);
    assert 'A' in Upper;
    assert once['A'] > 0.0;
    assert Weight(once, 'A') == once['A'];
    assert twice['A'] == once['A'] * 1.5;
  }

  class CharacterGenerator {
    var weights: map<char, real>

    ghost predicate Valid()
      reads this
    {
      Positive(weights)
    }

    constructor()
      ensures Valid() && weights == InitialWeights()
    {
      weights := InitialWeights();
    }

    /** Scans the tier table and keeps the last tier the level reaches, or the fallback. */
    method GetCharacterSet(level: int) returns (cs: string)
      ensures cs == CharacterSet(level)
    {
      var appropriateSet := "";
      for i := 0 to |Tiers|
        invariant appropriateSet == LastReached(i, level)
      {
        if level >= Tiers[i].0 {
          appropriateSet := Tiers[i].1;
        }
      }
      LastReachedTiers(level);
      cs := if |appropriateSet| > 0 then appropriateSet else Fallback;
    }

    /** Builds the level's weighted pool and returns the character `roll` picks from it. */
    method GenerateCharacter(level: int, roll: real) returns (c: char)
      requires Valid() && 0.0 <= roll < 1.0
      ensures c == Drawn(level, weights, roll)
      ensures c in CharacterSet(level)
    {
      var characterSet := GetCharacterSet(level);
      var weightedChars: seq<char> := [];
      for k := 0 to |characterSet|
        invariant weightedChars == Pool(characterSet[..k], weights)
      {
        var ch := characterSet[k];
        var count := Count(Weight(weights, ch));
        var i := 0;
        while i < count
          invariant 0 <= i && (i <= count || i == 0)
          invariant weightedChars == Pool(characterSet[..k], weights) + Repeat(ch, i)
        {
          weightedChars := weightedChars + [ch];
          i := i + 1;
        }
        assert characterSet[..k + 1][..k] == characterSet[..k];
        assert i == if count < 0 then 0 else count;
      }
      assert characterSet[..|characterSet|] == characterSet;
      PoolCoversSet(characterSet, weights);
      var randomIndex := PoolIndex(roll, |weightedChars|);
      c := weightedChars[randomIndex];
    }

    /** One character per roll, each drawn as `GenerateCharacter` draws it. */
    method GenerateMultipleCharacters(level: int, rolls: seq<real>) returns (characters: string)
      requires Valid()
      requires forall k :: 0 <= k < |rolls| ==> 0.0 <= rolls[k] < 1.0
      ensures |characters| == |rolls|
      ensures forall k :: 0 <= k < |rolls| ==> characters[k] == Drawn(level, weights, rolls[k])
      ensures forall k :: 0 <= k < |rolls| ==> characters[k] in CharacterSet(level)
    {
      characters := [];
      for i := 0 to |rolls|
        invariant |characters| == i
        invariant forall k :: 0 <= k < i ==> characters[k] == Drawn(level, weights, rolls[k])
      {
        var c := GenerateCharacter(level, rolls[i]);
        characters := characters + [c];
      }
      forall k | 0 <= k < |rolls|
        ensures characters[k] in CharacterSet(level)
      {
        DrawnInSet(level, weights, rolls[k]);
      }
    }

    /** Adjusts the weights to `level`, table by table, as `Reweighted` describes. */
    method UpdateWeights(level: int)
      requires Valid()
      modifies this
      ensures Valid()
      ensures weights == Reweighted(old(weights), level)
    {
      if level > 10 {
        SetWeights(Digits, 1.0);
      }
      if level > 15 {
        UpperDistinct();
        ScaleWeights(Upper);
      }
      if level > 20 {
        SetWeights(Specials, 0.5);
      }
    }

    /** One `forEach` that sets the weight of each character of `cs` to `v`. */
    method SetWeights(cs: string, v: real)
      modifies this
      ensures weights == SetAll(old(weights), cs, v)
    {
      for i := 0 to |cs|
        invariant weights == SetAll(old(weights), cs[..i], v)
      {
        SetAllStep(old(weights), cs, i, v);
        weights := weights[cs[i] := v];
      }
      assert cs[..|cs|] == cs;
    }

    /** One `forEach` that multiplies the weight of each character of `cs` by 3/2. */
    method ScaleWeights(cs: string)
      requires Distinct(cs)
      modifies this
      ensures weights == ScaleAll(old(weights), cs)
    {
      for i := 0 to |cs|
        invariant weights == ScaleAll(old(weights), cs[..i])
      {
        DistinctPrefix(cs, i);
        ScaleAllStep(old(weights), cs, i);
        weights := weights[cs[i] := Weight(weights, cs[i]) * 1.5];
      }
      assert cs[..|cs|] == cs;
    }
  }

  lemma SetAllStep(w: map<char, real>, cs: string, i: int, v: real)
    requires 0 <= i < |cs|
    ensures SetAll(w, cs[..i + 1], v) == SetAll(w, cs[..i], v)[cs[i] := v]
  {
    assert cs[..i + 1] == cs[..i] + [cs[i]];
  }

  lemma DistinctPrefix(s: string, i: int)
    requires Distinct(s) && 0 <= i < |s|
    ensures s[i] !in s[..i]
  {
  }

  lemma UpperDistinct()
    ensures Distinct(Upper)
  {
    ClassesRising();
  }

  lemma ScaleAllStep(w: map<char, real>, cs: string, i: int)
    requires 0 <= i < |cs| && cs[i] !in cs[..i]
    ensures ScaleAll(w, cs[..i + 1]) == ScaleAll(w, cs[..i])[cs[i] := Weight(ScaleAll(w, cs[..i]), cs[i]) * 1.5]
  {
    var before, after := ScaleAll(w, cs[..i]), ScaleAll(w, cs[..i + 1]);
    assert cs[..i + 1] == cs[..i] + [cs[i]];
    assert Weight(before, cs[i]) == Weight(w, cs[i]);
    var expected := before[cs[i] := Weight(before, cs[i]) * 1.5];
    assert after.Keys == expected.Keys;
    assert forall c :: c in after ==> after[c] == expected[c];
  }
}

/**
 Recognition of AES key schedules in `src/scan_aes.cpp`, against the key
 expansion of section 5.2 of FIPS 197. Everything here holds for any 256 entries
 of the S-box; AesKeys puts in the one the code fills at start-up.
 */
module AesSchedule {
  import Arithmetic
  import opened AesField

  type Bytes = seq<bv8>

  /** Four bytes. */
  type Word = w: seq<bv8> | |w| == 4 witness [0, 0, 0, 0]

  type Sbox = s: seq<bv8> | |s| == 256 witness seq(256, _ => 0)

  function Sub(sbox: Sbox, b: bv8): bv8 { sbox[b as nat] }

  // ---- Round constants ----

  /** The i-th round constant: x to the power i - 1, and 0 for index 0. */
  function Rcon(i: nat): bv8 { if i == 0 then 0 else if i == 1 then 1 else XTime(Rcon(i - 1)) }

  method RconFunction(index: nat) returns (c: bv8)
    ensures c == Rcon(index)
  {
    hide XTime, Product;
    c := 1;
    if index == 0 {
      return 0;
    }
    var left := index;
    while left != 1
      invariant 1 <= left <= index && c == Rcon(index - left + 1)
    {
      TimesTwo(c);
      c := Gmul(c, 2);
      left := left - 1;
    }
  }

  // ---- Key expansion ----

  /** A key size: words in the key, words in the schedule, the index of the first
      round constant, and whether there is a substitution half way. */
  datatype Kind = Kind(nk: nat, words: nat, first: nat, extra: bool)

  const AES128 := Kind(4, 44, 1, false)
  const AES192 := Kind(6, 52, 0, false)
  const AES256 := Kind(8, 60, 1, true)

  /** AES-192 as section 5.2 of FIPS 197 has it, with round constants from 1. */
  const FIPS192 := Kind(6, 52, 1, false)

  predicate GoodKind(k: Kind) { 4 <= k.nk <= 8 && k.nk <= k.words && (k.extra ==> k.nk > 4) }

  function XorWord(a: Word, b: Word): Word {
    [Xor(a[0], b[0]), Xor(a[1], b[1]), Xor(a[2], b[2]), Xor(a[3], b[3])]
  }

  function SubWord(sbox: Sbox, w: Word): Word {
    [Sub(sbox, w[0]), Sub(sbox, w[1]), Sub(sbox, w[2]), Sub(sbox, w[3])]
  }

  function RotWord(w: Word): Word { [w[1], w[2], w[3], w[0]] }

  /** `schedule_core`. */
  function Core(sbox: Sbox, w: Word, round: nat): Word {
    XorWord(SubWord(sbox, RotWord(w)), [Rcon(round), 0, 0, 0])
  }

  function Temp(sbox: Sbox, k: Kind, w: Word, i: nat): Word
    requires GoodKind(k) && i >= k.nk
  {
    if i % k.nk == 0 then Core(sbox, w, k.first + i / k.nk - 1)
    else if k.extra && i % k.nk == 4 then SubWord(sbox, w)
    else w
  }

  /** The i-th word of the expansion of a key. */
  function Expanded(sbox: Sbox, k: Kind, key: Bytes, i: nat): Word
    requires GoodKind(k) && |key| == 4 * k.nk
  {
    if i < k.nk then key[4 * i..4 * i + 4]
    else XorWord(Expanded(sbox, k, key, i - k.nk), Temp(sbox, k, Expanded(sbox, k, key, i - 1), i))
  }

  /** The first `n` words of the expansion. */
  function Schedule(sbox: Sbox, k: Kind, key: Bytes, n: nat): (r: Bytes)
    requires GoodKind(k) && |key| == 4 * k.nk
    ensures |r| == 4 * n
  {
    if n == 0 then [] else Schedule(sbox, k, key, n - 1) + Expanded(sbox, k, key, n - 1)
  }

  lemma {:induction false} ScheduleAt(sbox: Sbox, k: Kind, key: Bytes, n: nat, i: nat)
    requires GoodKind(k) && |key| == 4 * k.nk && i < n
    ensures Schedule(sbox, k, key, n)[4 * i..4 * i + 4] == Expanded(sbox, k, key, i)
  {
    hide Expanded;
    var init := Schedule(sbox, k, key, n - 1);
    if i < n - 1 {
      ScheduleAt(sbox, k, key, n - 1, i);
      assert Schedule(sbox, k, key, n)[4 * i..4 * i + 4] == init[4 * i..4 * i + 4];
    }
  }

  lemma {:induction false} SchedulePrefix(sbox: Sbox, k: Kind, key: Bytes, n: nat, m: nat)
    requires GoodKind(k) && |key| == 4 * k.nk && n <= m
    ensures Schedule(sbox, k, key, m)[..4 * n] == Schedule(sbox, k, key, n)
    decreases m
  {
    hide Expanded;
    if n < m {
      SchedulePrefix(sbox, k, key, n, m - 1);
    }
  }

  /** The schedule starts with the key. */
  lemma {:induction false} ScheduleKey(sbox: Sbox, k: Kind, key: Bytes, n: nat)
    requires GoodKind(k) && |key| == 4 * k.nk && n <= k.nk
    ensures Schedule(sbox, k, key, n) == key[..4 * n]
  {
    if n > 0 {
      ScheduleKey(sbox, k, key, n - 1);
      assert key[..4 * n] == key[..4 * (n - 1)] + key[4 * (n - 1)..4 * (n - 1) + 4];
    }
  }

  // ---- In-place steps ----

  method Rotate32x8(t: array<bv8>)
    requires t.Length == 4
    modifies t
    ensures t[..] == RotWord(old(t[..]))
  {
    var t0 := t[0];
    t[0] := t[1];
    t[1] := t[2];
    t[2] := t[3];
    t[3] := t0;
  }

  method Substitute(sbox: Sbox, t: array<bv8>)
    requires t.Length == 4
    modifies t
    ensures t[..] == SubWord(sbox, old(t[..]))
  {
    for a := 0 to 4
      invariant forall k :: 0 <= k < a ==> t[k] == Sub(sbox, old(t[k]))
      invariant forall k :: a <= k < 4 ==> t[k] == old(t[k])
    {
      t[a] := Sub(sbox, t[a]);
    }
  }

  method ScheduleCore(sbox: Sbox, t: array<bv8>, round: nat)
    requires t.Length == 4
    modifies t
    ensures t[..] == Core(sbox, old(t[..]), round)
  {
    hide Rcon;
    Rotate32x8(t);
    Substitute(sbox, t);
    ghost var w: Word := t[..];
    var rcon := RconFunction(round);
    XorZero(w[1]);
    XorZero(w[2]);
    XorZero(w[3]);
    t[0] := Xor(t[0], rcon);
  }

  lemma XorZero(a: bv8)
    ensures Xor(a, 0) == a
  {}

  /** The word that is combined with the one a key length before. */
  method ComputeTemp(sbox: Sbox, k: Kind, w: Word, i: nat, t: array<bv8>, round: nat)
    requires GoodKind(k) && i >= k.nk && t.Length == 4
    requires i % k.nk == 0 ==> round == k.first + i / k.nk - 1
    modifies t
    ensures t[..] == Temp(sbox, k, w, i)
  {
    hide Core, SubWord;
    t[0], t[1], t[2], t[3] := w[0], w[1], w[2], w[3];
    assert t[..] == w;
    if i % k.nk == 0 {
      ScheduleCore(sbox, t, round);
    }
    if k.extra && i % k.nk == 4 {
      Substitute(sbox, t);
    }
  }

  lemma WordOf(sbox: Sbox, k: Kind, key: Bytes, i: nat)
    requires GoodKind(k) && |key| == 4 * k.nk && i >= k.nk
    ensures Expanded(sbox, k, key, i)
         == XorWord(Expanded(sbox, k, key, i - k.nk), Temp(sbox, k, Expanded(sbox, k, key, i - 1), i))
  {
    hide Temp;
  }

  /** The round constant for word `i`. */
  function RoundAt(k: Kind, i: nat): int
    requires GoodKind(k) && i >= k.nk
  {
    k.first + (i - 1) / k.nk
  }

  lemma RoundNext(k: Kind, i: nat)
    requires GoodKind(k) && i >= k.nk
    ensures i % k.nk == 0 ==> RoundAt(k, i) == k.first + i / k.nk - 1 && RoundAt(k, i + 1) == RoundAt(k, i) + 1
    ensures i % k.nk != 0 ==> RoundAt(k, i + 1) == RoundAt(k, i)
    ensures RoundAt(k, k.nk) == k.first
  {
    var n, q, r := k.nk, i / k.nk, i % k.nk;
    assert i == n * q + r;
    if r == 0 {
      assert i - 1 == n * (q - 1) + (n - 1);
      Arithmetic.Euclid(i - 1, n, q - 1, n - 1);
    } else {
      Arithmetic.Euclid(i - 1, n, q, r - 1);
    }
    Arithmetic.Euclid(n - 1, n, 0, n - 1);
  }

  /** The schedule grows by one word from the words already there. */
  lemma NextWord(sbox: Sbox, k: Kind, key: Bytes, i: nat)
    requires GoodKind(k) && |key| == 4 * k.nk && i >= k.nk
    ensures var s := Schedule(sbox, k, key, i);
      Schedule(sbox, k, key, i + 1)
      == s + XorWord(s[4 * (i - k.nk)..4 * (i - k.nk) + 4], Temp(sbox, k, s[4 * i - 4..4 * i], i))
  {
    hide Expanded, Temp, XorWord;
    ScheduleAt(sbox, k, key, i, i - 1);
    ScheduleAt(sbox, k, key, i, i - k.nk);
    WordOf(sbox, k, key, i);
    assert 4 * (i - 1) + 4 == 4 * i;
  }

  /** Computes the next four bytes and stops at the first that differs from the input. */
  method CombineAndCompare(computed: array<bv8>, input: Bytes, pos: nat, back: nat, t: array<bv8>) returns (ok: bool)
    requires t.Length == 4 && t != computed && back + 4 <= pos && pos + 4 <= computed.Length && pos + 4 <= |input|
    modifies computed
    ensures computed[..pos] == old(computed[..pos])
    ensures ok <==> input[pos..pos + 4] == XorWord(old(computed[back..back + 4]), t[..])
    ensures ok ==> computed[pos..pos + 4] == input[pos..pos + 4]
  {
    hide Xor;
    ghost var from: Word := computed[back..back + 4];
    ghost var word := XorWord(from, t[..]);
    for a := 0 to 4
      invariant computed[..pos] == old(computed[..pos])
      invariant forall b :: 0 <= b < a ==> input[pos + b] == word[b] == computed[pos + b]
    {
      assert computed[back + a] == computed[..pos][back + a] == from[a];
      computed[pos + a] := Xor(computed[back + a], t[a]);
      if computed[pos + a] != input[pos + a] {
        assert input[pos..pos + 4][a] != word[a];
        return false;
      }
    }
    return true;
  }

  method Combine(computed: array<bv8>, pos: nat, back: nat, t: array<bv8>)
    requires t.Length == 4 && t != computed && back + 4 <= pos && pos + 4 <= computed.Length
    modifies computed
    ensures computed[..pos] == old(computed[..pos])
    ensures computed[pos..pos + 4] == XorWord(old(computed[back..back + 4]), t[..])
  {
    hide Xor;
    ghost var from: Word := computed[back..back + 4];
    ghost var word := XorWord(from, t[..]);
    for a := 0 to 4
      invariant computed[..pos] == old(computed[..pos])
      invariant forall b :: 0 <= b < a ==> computed[pos + b] == word[b]
    {
      assert computed[back + a] == computed[..pos][back + a] == from[a];
      computed[pos + a] := Xor(computed[back + a], t[a]);
    }
  }

  /** A schedule that breaks off at word `i` is not the input's. */
  lemma Differs(sbox: Sbox, k: Kind, key: Bytes, input: Bytes, i: nat)
    requires GoodKind(k) && |key| == 4 * k.nk && i < k.words && |input| >= 4 * k.words
    requires Schedule(sbox, k, key, i + 1) != input[..4 * i + 4]
    ensures Schedule(sbox, k, key, k.words) != input[..4 * k.words]
  {
    SchedulePrefix(sbox, k, key, i + 1, k.words);
    assert input[..4 * k.words][..4 * (i + 1)] == input[..4 * i + 4];
  }

  /** One pass of the loop of the three checks: the word at `i` is computed from
      the words before it and compared with the input. */
  method CheckWord(sbox: Sbox, k: Kind, input: Bytes, i: nat, round: nat, computed: array<bv8>, t: array<bv8>)
    returns (ok: bool)
    requires GoodKind(k) && |input| >= 4 * k.words == computed.Length && k.nk <= i < k.words
    requires t.Length == 4 && t != computed && round == RoundAt(k, i)
    requires computed[..4 * i] == input[..4 * i] == Schedule(sbox, k, input[..4 * k.nk], i)
    modifies computed, t
    ensures ok <==> input[..4 * i + 4] == Schedule(sbox, k, input[..4 * k.nk], i + 1)
    ensures ok ==> computed[..4 * i + 4] == input[..4 * i + 4]
  {
    hide Schedule, Temp, XorWord, Expanded, RoundAt, Core, SubWord, RotWord, Sub, Rcon, XTime, Xor;
    var pos, back := 4 * i, 4 * (i - k.nk);
    RoundNext(k, i);
    NextWord(sbox, k, input[..4 * k.nk], i);
    ghost var prefix := input[..pos];
    assert input[pos - 4..pos] == prefix[pos - 4..pos];
    ComputeTemp(sbox, k, input[pos - 4..pos], i, t, round);
    assert computed[back..back + 4] == prefix[back..back + 4];
    ok := CombineAndCompare(computed, input, pos, back, t);
    assert input[..pos + 4] == prefix + input[pos..pos + 4];
    assert computed[..pos + 4] == computed[..pos] + computed[pos..pos + 4];
  }

  /** What `valid_aes128_schedule`, `valid_aes192_schedule` and
      `valid_aes256_schedule` do, each with its own constants. */
  method ValidSchedule(sbox: Sbox, k: Kind, input: Bytes) returns (valid: bool)
    requires GoodKind(k) && |input| >= 4 * k.words
    ensures valid <==> input[..4 * k.words] == Schedule(sbox, k, input[..4 * k.nk], k.words)
  {
    hide Schedule, Temp, XorWord, Expanded, RoundAt, Core, SubWord, RotWord, Sub, Rcon, XTime, Xor;
    var computed := new bv8[4 * k.words](_ => 0);
    var t := new bv8[4](_ => 0);
    ghost var key := input[..4 * k.nk];
    ScheduleKey(sbox, k, key, k.nk);
    forall j | 0 <= j < 4 * k.nk {
      computed[j] := input[j];
    }
    assert computed[..4 * k.nk] == key == key[..4 * k.nk];
    var i, round := k.nk, k.first; // the word at `pos`
    RoundNext(k, k.nk);
    while i < k.words
      invariant k.nk <= i <= k.words && round == RoundAt(k, i)
      invariant computed[..4 * i] == input[..4 * i] == Schedule(sbox, k, key, i)
      invariant fresh(computed) && fresh(t) && computed != t
    {
      RoundNext(k, i);
      var ok := CheckWord(sbox, k, input, i, round, computed, t);
      if !ok {
        Differs(sbox, k, key, input, i);
        return false;
      }
      if i % k.nk == 0 {
        round := round + 1;
      }
      i := i + 1;
    }
    return true;
  }

  /** A buffer is the schedule of some key if and only if it is the one of its own
      first bytes, so the check recognises exactly what is created. */
  lemma RecognisesWhatIsCreated(sbox: Sbox, k: Kind, input: Bytes)
    requires GoodKind(k) && |input| >= 4 * k.words
    ensures input[..4 * k.words] == Schedule(sbox, k, input[..4 * k.nk], k.words)
       <==> exists key: Bytes :: |key| == 4 * k.nk && input[..4 * k.words] == Schedule(sbox, k, key, k.words)
  {
    forall key: Bytes | |key| == 4 * k.nk && input[..4 * k.words] == Schedule(sbox, k, key, k.words)
      ensures input[..4 * k.words] == Schedule(sbox, k, input[..4 * k.nk], k.words)
    {
      SchedulePrefix(sbox, k, key, k.nk, k.words);
      ScheduleKey(sbox, k, key, k.nk);
      assert key[..4 * k.nk] == key;
      assert input[..4 * k.words][..4 * k.nk] == input[..4 * k.nk];
    }
    hide Schedule;
  }

  /** One pass of the loop that creates a schedule. */
  method CreateWord(sbox: Sbox, k: Kind, ghost key: Bytes, i: nat, round: nat, computed: array<bv8>, t: array<bv8>)
    requires GoodKind(k) && |key| == 4 * k.nk && computed.Length == 4 * k.words && k.nk <= i < k.words
    requires t.Length == 4 && t != computed && round == RoundAt(k, i)
    requires computed[..4 * i] == Schedule(sbox, k, key, i)
    modifies computed, t
    ensures computed[..4 * i + 4] == Schedule(sbox, k, key, i + 1)
  {
    hide Schedule, Temp, XorWord, Expanded, RoundAt, Core, SubWord, RotWord, Sub, Rcon, XTime, Xor;
    var pos, back := 4 * i, 4 * (i - k.nk);
    RoundNext(k, i);
    NextWord(sbox, k, key, i);
    ghost var prefix := computed[..pos];
    assert computed[pos - 4..pos] == prefix[pos - 4..pos];
    ComputeTemp(sbox, k, computed[pos - 4..pos], i, t, round);
    assert computed[back..back + 4] == prefix[back..back + 4];
    Combine(computed, pos, back, t);
    assert computed[..pos + 4] == computed[..pos] + computed[pos..pos + 4];
  }

  /** `create_aes128_schedule`. */
  method CreateSchedule(sbox: Sbox, k: Kind, key: Bytes, computed: array<bv8>)
    requires GoodKind(k) && |key| == 4 * k.nk && computed.Length == 4 * k.words
    modifies computed
    ensures computed[..] == Schedule(sbox, k, key, k.words)
  {
    hide Schedule, Temp, XorWord, Expanded, RoundAt, Core, SubWord, RotWord, Sub, Rcon, XTime, Xor;
    var t := new bv8[4](_ => 0);
    ScheduleKey(sbox, k, key, k.nk);
    forall j | 0 <= j < 4 * k.nk {
      computed[j] := key[j];
    }
    assert computed[..4 * k.nk] == key[..4 * k.nk];
    var i, round := k.nk, k.first;
    RoundNext(k, k.nk);
    while i < k.words
      invariant k.nk <= i <= k.words && round == RoundAt(k, i)
      invariant computed[..4 * i] == Schedule(sbox, k, key, i)
      invariant fresh(t) && computed != t
    {
      RoundNext(k, i);
      CreateWord(sbox, k, key, i, round, computed, t);
      if i % k.nk == 0 {
        round := round + 1;
      }
      i := i + 1;
    }
    assert computed[..] == computed[..4 * k.words];
  }

  // ---- What the expansion keeps apart ----

  lemma XorCancels(a: Word, b: Word, t: Word)
    requires XorWord(a, t) == XorWord(b, t)
    ensures a == b
  {
    assert Xor(a[0], t[0]) == XorWord(a, t)[0] == Xor(b[0], t[0]);
    assert Xor(a[1], t[1]) == XorWord(a, t)[1] == Xor(b[1], t[1]);
    assert Xor(a[2], t[2]) == XorWord(a, t)[2] == Xor(b[2], t[2]);
    assert Xor(a[3], t[3]) == XorWord(a, t)[3] == Xor(b[3], t[3]);
  }

  /** As many consecutive words as the key has determine the key. */
  lemma {:induction false} WordsDetermineKey(sbox: Sbox, k: Kind, a: Bytes, b: Bytes, at: nat)
    requires GoodKind(k) && |a| == |b| == 4 * k.nk
    requires forall j :: at <= j < at + k.nk ==> Expanded(sbox, k, a, j) == Expanded(sbox, k, b, j)
    ensures a == b
    decreases at
  {
    hide Temp, XorWord;
    if at == 0 {
      forall j | 0 <= j < |a| ensures a[j] == b[j] {
        assert Expanded(sbox, k, a, j / 4) == a[4 * (j / 4)..4 * (j / 4) + 4];
        assert Expanded(sbox, k, b, j / 4) == b[4 * (j / 4)..4 * (j / 4) + 4];
        assert a[j] == Expanded(sbox, k, a, j / 4)[j % 4] && b[j] == Expanded(sbox, k, b, j / 4)[j % 4];
      }
    } else {
      var top := at - 1 + k.nk;
      WordOf(sbox, k, a, top);
      WordOf(sbox, k, b, top);
      XorCancels(Expanded(sbox, k, a, at - 1), Expanded(sbox, k, b, at - 1),
                 Temp(sbox, k, Expanded(sbox, k, a, top - 1), top));
      WordsDetermineKey(sbox, k, a, b, at - 1);
    }
  }

  /** The round key of round `r`: four words. */
  function RoundKey(sbox: Sbox, key: Bytes, r: nat): Bytes
    requires |key| == 16
  {
    Expanded(sbox, AES128, key, 4 * r) + Expanded(sbox, AES128, key, 4 * r + 1)
    + Expanded(sbox, AES128, key, 4 * r + 2) + Expanded(sbox, AES128, key, 4 * r + 3)
  }

  /** Different AES-128 keys have different round keys in every round. */
  lemma RoundKeysDiffer(sbox: Sbox, a: Bytes, b: Bytes, r: nat)
    requires |a| == |b| == 16 && RoundKey(sbox, a, r) == RoundKey(sbox, b, r)
    ensures a == b
  {
    hide Expanded;
    forall j | 4 * r <= j < 4 * r + 4 ensures Expanded(sbox, AES128, a, j) == Expanded(sbox, AES128, b, j) {
      var i := 4 * (j - 4 * r);
      assert RoundKey(sbox, a, r)[i..i + 4] == Expanded(sbox, AES128, a, j);
      assert RoundKey(sbox, b, r)[i..i + 4] == Expanded(sbox, AES128, b, j);
    }
    WordsDetermineKey(sbox, AES128, a, b, 4 * r);
  }

  lemma CoreDiffers(w: Word, sbox: Sbox)
    ensures Core(sbox, w, 0) != Core(sbox, w, 1)
  {
    var s := Sub(sbox, w[1]);
    assert Core(sbox, w, 0)[0] == Xor(s, 0) && Core(sbox, w, 1)[0] == Xor(s, 1);
    assert s ^ 0 != s ^ 1;
  }

  /** The 192-bit check starts its round constants at 0, so no schedule that
      FIPS 197 generates for a 192-bit key is ever recognised. */
  lemma NoFips192Recognised(sbox: Sbox, key: Bytes, input: Bytes)
    requires |key| == 24 && |input| >= 208 && input[..208] == Schedule(sbox, FIPS192, key, 52)
    ensures input[..208] != Schedule(sbox, AES192, input[..24], 52)
  {
    hide Core, XorWord, Schedule;
    SchedulePrefix(sbox, FIPS192, key, 6, 52);
    ScheduleKey(sbox, FIPS192, key, 6);
    assert input[..24] == input[..208][..24] == key[..24] == key;
    ScheduleAt(sbox, FIPS192, key, 52, 6);
    ScheduleAt(sbox, AES192, key, 52, 6);
    WordOf(sbox, FIPS192, key, 6);
    WordOf(sbox, AES192, key, 6);
    assert Expanded(sbox, FIPS192, key, 5) == key[20..24] == Expanded(sbox, AES192, key, 5);
    assert Expanded(sbox, FIPS192, key, 0) == key[0..4] == Expanded(sbox, AES192, key, 0);
    CoreDiffers(key[20..24], sbox);
    XorApart(key[0..4], Core(sbox, key[20..24], 0), Core(sbox, key[20..24], 1));
  }

  lemma XorApart(t: Word, a: Word, b: Word)
    requires a != b
    ensures XorWord(t, a) != XorWord(t, b)
  {
    if XorWord(t, a) == XorWord(t, b) {
      SwapXor(t, a);
      SwapXor(t, b);
      XorCancels(a, b, t);
    }
  }

  lemma SwapXor(a: Word, b: Word)
    ensures XorWord(a, b) == XorWord(b, a)
  {}
}

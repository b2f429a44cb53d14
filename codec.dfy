/**
 * The text forms the tree accepts: `loadip4` reads a dotted quad into a 32-bit big-endian number
 * and `parsecidr4` adds an optional `/n` suffix, read as a mask of the top `n` bits. Go's `uint32`
 * arithmetic is written out on `nat` with explicit reductions modulo 2^32.
 */
module Codec {
  import opened Wrappers
  import opened Bits

  /** 2^32: `uint32` arithmetic wraps modulo this. */
  const Word: nat := 0x1_0000_0000

  predicate IsDigit(c: char) {
    '0' <= c <= '9'
  }

  predicate AllDigits(s: string) {
    forall i | 0 <= i < |s| :: IsDigit(s[i])
  }

  /** `c - '0'` for a digit. */
  function DigitValue(c: char): (d: nat)
    requires IsDigit(c)
    ensures d < 10
  {
    c as int - '0' as int
  }

  /** The number a string of decimal digits denotes; the empty string denotes 0. */
  function Decimal(s: string): nat
    requires AllDigits(s)
  {
    if s == [] then 0 else Decimal(s[..|s| - 1]) * 10 + DigitValue(s[|s| - 1])
  }

  /** Appending digits never makes the number smaller. */
  lemma {:induction false} DecimalGrows(s: string, t: string)
    requires s <= t && AllDigits(t)
    ensures AllDigits(s) && Decimal(s) <= Decimal(t)
    decreases |t|
  {
    if |s| < |t| {
      assert s <= t[..|t| - 1];
      DecimalGrows(s, t[..|t| - 1]);
    } else {
      assert s == t;
    }
  }

  /** `s` cut at every '.': the fields between the dots, empty ones included, left to right. */
  function Fields(s: string): (f: seq<string>)
    ensures |f| > 0
  {
    if s == [] then [[]]
    else
      var f := Fields(s[..|s| - 1]);
      if s[|s| - 1] == '.' then f + [[]] else f[..|f| - 1] + [f[|f| - 1] + [s[|s| - 1]]]
  }

  /** Fields put back together with a '.' between neighbours. */
  function Join(f: seq<string>): string
    requires |f| > 0
  {
    if |f| == 1 then f[0] else Join(f[..|f| - 1]) + ['.'] + f[|f| - 1]
  }

  /** Joining one more field. */
  lemma JoinLast(g: seq<string>, x: string)
    requires |g| > 0
    ensures Join(g + [x]) == Join(g) + ['.'] + x
  {
    assert (g + [x])[..|g|] == g;
  }

  /** A character appended to the last field is appended to the joined string. */
  lemma JoinGrow(f: seq<string>, c: char)
    requires |f| > 0
    ensures Join(f[..|f| - 1] + [f[|f| - 1] + [c]]) == Join(f) + [c]
  {
    if |f| > 1 {
      JoinLast(f[..|f| - 1], f[|f| - 1] + [c]);
    }
  }

  /** Cutting at the dots loses nothing: the fields join back to the string. */
  lemma {:induction false} JoinFields(s: string)
    ensures Join(Fields(s)) == s
    decreases |s|
  {
    if s != [] {
      var t, c := s[..|s| - 1], s[|s| - 1];
      JoinFields(t);
      assert s == t + [c];
      if c == '.' {
        JoinLast(Fields(t), []);
      } else {
        JoinGrow(Fields(t), c);
      }
    }
  }

  /** One more character: a dot opens a new field, anything else extends the last one. */
  lemma FieldsSnoc(s: string, c: char)
    ensures var f := Fields(s);
      Fields(s + [c]) == if c == '.' then f + [[]] else f[..|f| - 1] + [f[|f| - 1] + [c]]
  {
    assert (s + [c])[..|s|] == s;
  }

  /** Text without a dot appended to `s` lands in the last field. */
  lemma {:induction false} FieldsTail(s: string, t: string)
    requires '.' !in t
    ensures var f := Fields(s); Fields(s + t) == f[..|f| - 1] + [f[|f| - 1] + t]
    decreases |t|
  {
    var f := Fields(s);
    var front, last := f[..|f| - 1], f[|f| - 1];
    if t == [] {
      assert s + t == s && last + t == last;
      assert front + [last] == f;
    } else {
      var u, c := t[..|t| - 1], t[|t| - 1];
      assert '.' !in u;
      assert (s + u) + [c] == s + t;
      assert (last + u) + [c] == last + t;
      FieldsTail(s, u);
      FieldsTailStep(front, last + u, s + u, c);
    }
  }

  lemma FieldsTailStep(front: seq<string>, last: string, s: string, c: char)
    requires Fields(s) == front + [last] && c != '.'
    ensures Fields(s + [c]) == front + [last + [c]]
  {
    FieldsSnoc(s, c);
    assert (front + [last])[..|front|] == front;
  }

  /** Joining dot-free fields and cutting again gives the same fields back. */
  lemma {:induction false} FieldsJoin(f: seq<string>)
    requires |f| > 0 && forall k | 0 <= k < |f| :: '.' !in f[k]
    ensures Fields(Join(f)) == f
    decreases |f|
  {
    if |f| == 1 {
      FieldsTail([], f[0]);
      assert Fields([]) == [[]] && [] + f[0] == f[0];
    } else {
      var g, x := f[..|f| - 1], f[|f| - 1];
      FieldsJoin(g);
      FieldsJoinStep(g, x);
      assert g + [x] == f;
    }
  }

  lemma FieldsJoinStep(g: seq<string>, x: string)
    requires |g| > 0 && Fields(Join(g)) == g && '.' !in x
    ensures Fields(Join(g + [x])) == g + [x]
  {
    JoinLast(g, x);
    var s := Join(g) + ['.'];
    assert Join(g + [x]) == s + x;
    FieldsSnoc(Join(g), '.');
    assert Fields(s) == g + [[]];
    FieldsTail(s, x);
    assert (g + [[]])[..|g|] == g;
    assert Fields(s + x) == g + [[] + x];
    assert [] + x == x;
  }

  /** A field `loadip4` accepts: digits only, worth at most 255 (leading zeros and the empty field included). */
  predicate IsOctet(f: string) {
    AllDigits(f) && Decimal(f) <= 255
  }

  predicate AllOctets(f: seq<string>) {
    forall k | 0 <= k < |f| :: IsOctet(f[k])
  }

  /** The fields read as the digits of a base-256 number, most significant first. */
  function Combine(f: seq<string>): nat
    requires AllOctets(f)
  {
    if f == [] then 0 else Combine(f[..|f| - 1]) * 256 + Decimal(f[|f| - 1])
  }

  function Pow256(k: nat): nat {
    if k == 0 then 1 else Pow256(k - 1) * 256
  }

  /** `k` octets make a number below 256^k. */
  lemma {:induction false} CombineBound(f: seq<string>)
    requires AllOctets(f)
    ensures Combine(f) < Pow256(|f|)
    decreases |f|
  {
    if f != [] {
      CombineBound(f[..|f| - 1]);
    }
  }

  /** Four octets read big-endian. */
  lemma Combine4(f: seq<string>)
    requires |f| == 4 && AllOctets(f)
    ensures Combine(f) == Decimal(f[0]) * 0x100_0000 + Decimal(f[1]) * 0x1_0000 + Decimal(f[2]) * 0x100 + Decimal(f[3])
    ensures Combine(f) < Word
  {
    var f3, f2, f1 := f[..3], f[..2], f[..1];
    assert f3[..2] == f2 && f2[..1] == f1 && f1[..0] == [];
    assert Combine(f1) == Decimal(f[0]);
    assert Combine(f2) == Decimal(f[0]) * 256 + Decimal(f[1]);
    assert Combine(f3) == Combine(f2) * 256 + Decimal(f[2]);
  }

  /**
   * What `loadip4` accepts and what it returns: exactly four fields between dots, each an octet,
   * read big-endian; anything else is ErrBadIP.
   */
  function Ip4(s: string): (r: Result<nat>)
    ensures r.Ok? <==> |Fields(s)| == 4 && AllOctets(Fields(s))
    ensures r.Ok? ==> var f := Fields(s);
      r.value == Decimal(f[0]) * 0x100_0000 + Decimal(f[1]) * 0x1_0000 + Decimal(f[2]) * 0x100 + Decimal(f[3])
    ensures r.Ok? ==> r.value < Word
    ensures r.Err? ==> r.error == BadIP
  {
    var f := Fields(s);
    if |f| == 4 && AllOctets(f) then
      Combine4(f);
      Ok(Combine(f))
    else
      Err(BadIP)
  }

  /** Every dotted quad of octets reads as its big-endian number. */
  lemma Ip4Join(f: seq<string>)
    requires |f| == 4 && AllOctets(f)
    ensures Ip4(Join(f)) == Ok(Combine(f))
  {
    forall k | 0 <= k < 4
      ensures '.' !in f[k]
    {
      assert AllDigits(f[k]);
    }
    FieldsJoin(f);
  }

  /** `g` continues `f`: the closed fields of `f` are fields of `g`, and its open field is still growing. */
  ghost predicate Continues(f: seq<string>, g: seq<string>) {
    0 < |f| <= |g| && f[|f| - 1] <= g[|f| - 1] && forall k | 0 <= k < |f| - 1 :: f[k] == g[k]
  }

  /** Reading one more character keeps every earlier state of the fields continued. */
  lemma ContinuesSnoc(f: seq<string>, t: string, c: char)
    requires Continues(f, Fields(t))
    ensures Continues(f, Fields(t + [c]))
  {
    var g, g' := Fields(t), Fields(t + [c]);
    var m, n := |f| - 1, |g| - 1;
    FieldsSnoc(t, c);
    if c == '.' {
      assert forall k | 0 <= k <= n :: g'[k] == g[k];
    } else {
      assert forall k | 0 <= k < n :: g'[k] == g[k];
      assert g'[n] == g[n] + [c];
      if m == n {
        assert f[m] <= g'[m];
      } else {
        assert g'[m] == g[m];
      }
    }
  }

  /** The fields of a prefix of `s` are continued by the fields of `s`. */
  lemma {:induction false} FieldsPrefix(s: string, i: nat)
    requires i <= |s|
    ensures Continues(Fields(s[..i]), Fields(s))
    decreases |s|
  {
    if i < |s| {
      var t, c := s[..|s| - 1], s[|s| - 1];
      assert t[..i] == s[..i] && t + [c] == s;
      FieldsPrefix(t, i);
      ContinuesSnoc(Fields(s[..i]), t, c);
    } else {
      assert s[..i] == s;
    }
  }

  /** Once the first `i + 1` characters have too many fields or a bad one, `loadip4` must fail. */
  lemma Doomed(s: string, i: nat)
    requires i < |s|
    requires var f := Fields(s[..i + 1]); |f| > 4 || !IsOctet(f[|f| - 1])
    ensures Ip4(s) == Err(BadIP)
  {
    var f, g := Fields(s[..i + 1]), Fields(s);
    FieldsPrefix(s, i + 1);
    if |g| == 4 && AllOctets(g) {
      DecimalGrows(f[|f| - 1], g[|f| - 1]);
    }
  }

  /**
   * The state of `loadip4` after the first `i` characters: `num` dots seen, `oct` the value of the
   * field being read, `ip` (while at most three dots are seen) the completed fields read
   * big-endian, and every field so far an octet.
   */
  ghost predicate Scanned(s: string, i: int, ip: nat, oct: nat, num: nat) {
    && 0 <= i <= |s|
    && var f := Fields(s[..i]);
    && AllOctets(f) && num == |f| - 1 && oct == Decimal(f[num]) && ip < Word
    && (num <= 3 ==> ip == Combine(f[..num]))
  }

  lemma ScanStart(s: string)
    ensures Scanned(s, 0, 0, 0, 0)
  {
    assert s[..0] == [];
    assert Fields([]) == [[]];
  }

  /** The fields after one more character of `s`. */
  lemma FieldsNext(s: string, i: nat)
    requires i < |s|
    ensures var f := Fields(s[..i]);
      Fields(s[..i + 1]) == if s[i] == '.' then f + [[]] else f[..|f| - 1] + [f[|f| - 1] + [s[i]]]
  {
    assert s[..i + 1] == s[..i] + [s[i]];
    FieldsSnoc(s[..i], s[i]);
  }

  /** One more digit: the number is ten times larger plus the digit. */
  lemma DecimalSnoc(x: string, c: char)
    requires AllDigits(x) && IsDigit(c)
    ensures AllDigits(x + [c]) && Decimal(x + [c]) == Decimal(x) * 10 + DigitValue(c)
  {
    assert (x + [c])[..|x|] == x;
  }

  /** A digit: the current field grows by it, and `oct > 255` happens exactly when that field is no octet. */
  lemma ScanDigit(s: string, i: nat, ip: nat, oct: nat, num: nat)
    requires Scanned(s, i, ip, oct, num) && i < |s| && IsDigit(s[i])
    ensures var o := oct * 10 + DigitValue(s[i]);
      (o > 255 ==> Ip4(s) == Err(BadIP)) && (o <= 255 ==> Scanned(s, i + 1, ip, o, num))
  {
    var f := Fields(s[..i]);
    FieldsNext(s, i);
    DecimalSnoc(f[num], s[i]);
    var f' := Fields(s[..i + 1]);
    if oct * 10 + DigitValue(s[i]) > 255 {
      Doomed(s, i);
    } else {
      assert f'[..num] == f[..num];
    }
  }

  /** Any character but a digit or a dot makes a field that is no octet. */
  lemma ScanOther(s: string, i: nat, ip: nat, oct: nat, num: nat)
    requires Scanned(s, i, ip, oct, num) && i < |s| && !IsDigit(s[i]) && s[i] != '.'
    ensures Ip4(s) == Err(BadIP)
  {
    var x, c := Fields(s[..i])[num], s[i];
    FieldsNext(s, i);
    assert (x + [c])[|x|] == c;
    Doomed(s, i);
  }

  /** Up to three octets fit in 24 bits. */
  lemma ThreeOctets(f: seq<string>, num: nat)
    requires AllOctets(f) && num <= 3 && num <= |f|
    ensures Combine(f[..num]) < 0x100_0000
  {
    CombineBound(f[..num]);
    assert Pow256(num) <= 0x100_0000 by {
      if num == 3 {} else if num == 2 {} else if num == 1 {} else {}
    }
  }

  /** `ip<<8 + oct` on a 24-bit `ip` neither wraps nor trips the check `0xffffffff-ip < oct`. */
  lemma NoWrap(ip: nat, oct: nat)
    requires ip < 0x100_0000 && oct <= 255
    ensures Word - 1 - ip >= oct && (ip * 256 % Word + oct) % Word == ip * 256 + oct
  {
    assert ip * 256 + oct < Word;
    SmallWord(ip * 256);
    SmallWord(ip * 256 + oct);
  }

  /**
   * A dot closes a field: the overflow check `0xffffffff-ip < oct` can only fire once three dots
   * were already seen, and `ip<<8 + oct` then appends the closed field to `ip`.
   */
  lemma ScanDot(s: string, i: nat, ip: nat, oct: nat, num: nat)
    requires Scanned(s, i, ip, oct, num) && i < |s| && s[i] == '.'
    ensures Word - 1 - ip < oct ==> Ip4(s) == Err(BadIP)
    ensures Scanned(s, i + 1, (ip * 256 % Word + oct) % Word, 0, num + 1)
  {
    var f := Fields(s[..i]);
    FieldsNext(s, i);
    var f' := Fields(s[..i + 1]);
    assert f'[..num + 1] == f && f[..num + 1] == f;
    if num <= 2 {
      ThreeOctets(f, num);
      NoWrap(ip, oct);
    } else {
      Doomed(s, i);
    }
  }

  /** At the end: exactly three dots means success with `ip<<8 + oct`, as `Ip4` says. */
  lemma ScanEnd(s: string, ip: nat, oct: nat, num: nat)
    requires Scanned(s, |s|, ip, oct, num)
    ensures num != 3 ==> Ip4(s) == Err(BadIP)
    ensures num == 3 ==> Word - 1 - ip >= oct && Ip4(s) == Ok((ip * 256 % Word + oct) % Word)
  {
    var f := Fields(s);
    assert s[..|s|] == s;
    if num == 3 {
      ThreeOctets(f, 3);
      NoWrap(ip, oct);
    }
  }

  /**
   * `loadip4`, with the dot counter widened so that it cannot wrap: one pass over the characters,
   * failing on any character but a digit or a dot and on any field above 255, and at the end on a
   * dot count other than 3. It answers exactly `Ip4(s)`.
   */
  method LoadIp4(s: string) returns (r: Result<nat>)
    ensures r == Ip4(s)
  {
    var ip: nat, oct: nat, num: nat := 0, 0, 0;
    ScanStart(s);
    for i := 0 to |s|
      invariant Scanned(s, i, ip, oct, num)
    {
      var b := s[i];
      if b == '.' {
        ScanDot(s, i, ip, oct, num);
        num := num + 1;
        if Word - 1 - ip < oct {
          return Err(BadIP);
        }
        ip := (ip * 256 % Word + oct) % Word;
        oct := 0;
      } else if '0' <= b <= '9' {
        ScanDigit(s, i, ip, oct, num);
        oct := oct * 10 + DigitValue(b);
        if oct > 255 {
          return Err(BadIP);
        }
      } else {
        ScanOther(s, i, ip, oct, num);
        return Err(BadIP);
      }
    }
    ScanEnd(s, ip, oct, num);
    if num != 3 {
      return Err(BadIP);
    }
    if Word - 1 - ip < oct {
      return Err(BadIP);
    }
    return Ok((ip * 256 % Word + oct) % Word);
  }

  /** The state `loadip4` keeps between characters: the address so far, the current field, the dot count. */
  datatype Scan = Scan(ip: nat, oct: nat, num: nat)

  /**
   * The loop of `loadip4` exactly as written, run over `s`: the dot counter `num` is a Go `byte`,
   * so it wraps at 256. `None` is an early ErrBadIP.
   */
  function ScanAsWritten(s: string): (r: Option<Scan>)
    ensures r.Some? ==> r.value.ip < Word && r.value.oct <= 255 && r.value.num < 256
  {
    if s == [] then Some(Scan(0, 0, 0))
    else
      match ScanAsWritten(s[..|s| - 1])
      case None => None
      case Some(st) => StepAsWritten(st, s[|s| - 1])
  }

  /** One character of the as-written loop; `None` is an early ErrBadIP. */
  function StepAsWritten(st: Scan, b: char): Option<Scan> {
    if b == '.' then
      if Word - 1 - st.ip < st.oct then None
      else Some(Scan((st.ip * 256 % Word + st.oct) % Word, 0, (st.num + 1) % 256))
    else if IsDigit(b) then
      if st.oct * 10 + DigitValue(b) > 255 then None else Some(st.(oct := st.oct * 10 + DigitValue(b)))
    else None
  }

  /** `loadip4` exactly as written, with its byte-wide dot counter. */
  function Ip4AsWritten(s: string): (r: Result<nat>)
    ensures r.Ok? ==> r.value < Word
    ensures r.Err? ==> r.error == BadIP
  {
    match ScanAsWritten(s)
    case None => Err(BadIP)
    case Some(st) =>
      if st.num != 3 || Word - 1 - st.ip < st.oct then Err(BadIP) else Ok((st.ip * 256 % Word + st.oct) % Word)
  }

  /**
   * On a text that `Ip4` accepts, the as-written loop never sees more than three dots, so its
   * byte-wide counter never wraps and each step keeps the state `Scanned` describes.
   */
  lemma {:induction false} AsWrittenScans(s: string, i: nat)
    requires i <= |s| && Ip4(s).Ok?
    ensures ScanAsWritten(s[..i]).Some?
    ensures var st := ScanAsWritten(s[..i]).value; Scanned(s, i, st.ip, st.oct, st.num)
    decreases i
  {
    if i == 0 {
      assert s[..0] == [];
      ScanStart(s);
    } else {
      var j := i - 1;
      AsWrittenScans(s, j);
      assert s[..i][..j] == s[..j] && s[..i][j] == s[j];
      AsWrittenStep(s, j, ScanAsWritten(s[..j]).value);
    }
  }

  lemma AsWrittenStep(s: string, j: nat, st: Scan)
    requires j < |s| && Ip4(s).Ok? && Scanned(s, j, st.ip, st.oct, st.num)
    ensures StepAsWritten(st, s[j]).Some?
    ensures var st' := StepAsWritten(st, s[j]).value; Scanned(s, j + 1, st'.ip, st'.oct, st'.num)
  {
    if s[j] == '.' {
      AsWrittenDot(s, j, st);
    } else if IsDigit(s[j]) {
      ScanDigit(s, j, st.ip, st.oct, st.num);
    } else {
      ScanOther(s, j, st.ip, st.oct, st.num);
      assert false;
    }
  }

  /** A dot never makes the as-written count wrap: a valid address has at most three. */
  lemma AsWrittenDot(s: string, j: nat, st: Scan)
    requires j < |s| && s[j] == '.' && Ip4(s).Ok? && Scanned(s, j, st.ip, st.oct, st.num)
    ensures StepAsWritten(st, s[j]) == Some(Scan((st.ip * 256 % Word + st.oct) % Word, 0, st.num + 1))
    ensures Scanned(s, j + 1, (st.ip * 256 % Word + st.oct) % Word, 0, st.num + 1)
  {
    ScanDot(s, j, st.ip, st.oct, st.num);
    FieldsPrefix(s, j + 1);
    assert |Fields(s[..j + 1])| <= |Fields(s)| == 4;
    StepDot(st);
  }

  /** A dot that passes the overflow check, with at most three dots so far, does not wrap the count. */
  lemma StepDot(st: Scan)
    requires st.num + 1 <= 3 && Word - 1 - st.ip >= st.oct
    ensures StepAsWritten(st, '.') == Some(Scan((st.ip * 256 % Word + st.oct) % Word, 0, st.num + 1))
  {
    assert (st.num + 1) % 256 == st.num + 1;
  }

  /**
   * The byte-wide counter only lets extra texts through: on every text `Ip4` accepts, `loadip4`
   * as written gives the same address.
   */
  lemma AsWrittenOnQuads(s: string)
    requires Ip4(s).Ok?
    ensures Ip4AsWritten(s) == Ip4(s)
  {
    AsWrittenScans(s, |s|);
    assert s[..|s|] == s;
    var st := ScanAsWritten(s).value;
    ScanEnd(s, st.ip, st.oct, st.num);
  }

  /** A string of `k` dots. */
  function Dots(k: nat): (s: string)
    ensures |s| == k && forall i | 0 <= i < k :: s[i] == '.'
  {
    seq(k, _ => '.')
  }

  /** The as-written loop on one more character is one more step. */
  lemma AsWrittenSnoc(s: string, c: char)
    ensures ScanAsWritten(s + [c]) == if ScanAsWritten(s).None? then None else StepAsWritten(ScanAsWritten(s).value, c)
  {
    assert (s + [c])[..|s|] == s;
  }

  /** Over dots alone the as-written loop only counts, modulo 256. */
  lemma {:induction false} DotsAsWritten(k: nat)
    ensures ScanAsWritten(Dots(k)) == Some(Scan(0, 0, k % 256))
  {
    if k > 0 {
      DotsAsWritten(k - 1);
      assert Dots(k) == Dots(k - 1) + ['.'];
      AsWrittenSnoc(Dots(k - 1), '.');
      CountDot(k);
    }
  }

  /** A dot after `k - 1` dots moves the byte-wide count to `k mod 256`. */
  lemma CountDot(k: nat)
    requires k > 0
    ensures StepAsWritten(Scan(0, 0, (k - 1) % 256), '.') == Some(Scan(0, 0, k % 256))
  {
    var c := (k - 1) % 256;
    assert (c + 1) % 256 == k % 256 by {
      assert k - 1 == (k - 1) / 256 * 256 + c;
    }
    assert (0 * 256 % Word + 0) % Word == 0;
  }

  /** `k` dots cut into `k + 1` empty fields. */
  lemma {:induction false} DotsFields(k: nat)
    ensures |Fields(Dots(k))| == k + 1
  {
    if k > 0 {
      DotsFields(k - 1);
      assert Dots(k)[..k - 1] == Dots(k - 1);
    }
  }

  /**
   * The byte-wide dot counter of `loadip4` wraps: 259 dots count as 3, so a string of 259 dots is
   * read as the address 0.0.0.0, while it has 260 (empty) fields and is no dotted quad.
   */
  lemma DotCountWraps()
    ensures Ip4AsWritten(Dots(259)) == Ok(0)
    ensures Ip4(Dots(259)) == Err(BadIP)
  {
    DotsAsWritten(259);
    DotsFields(259);
  }

  /** `strings.IndexByte(s, c)`: the index of the first `c` in `s`, or -1 when there is none. */
  function IndexByte(s: string, c: char): (p: int)
    ensures -1 <= p < |s|
    ensures p == -1 <==> c !in s
    ensures p >= 0 ==> s[p] == c && c !in s[..p]
  {
    if s == [] then -1
    else if s[0] == c then 0
    else
      var p := IndexByte(s[1..], c);
      if p == -1 then -1 else p + 1
  }

  /**
   * The mask a `/digits` suffix denotes. The digits are read into a `uint32`, so the number wraps
   * modulo 2^32; `0xffffffff << (32 - n)` is then the top `n` bits for `n` in 1..32 and 0
   * otherwise, because the `uint32` subtraction wraps and Go shifts of 32 or more give 0.
   */
  function SuffixMask(digits: string): (m: bv32)
    requires AllDigits(digits)
    ensures var n := Decimal(digits) % Word; PrefixLen(m) == if n <= 32 then n else 0
  {
    var n := Decimal(digits) % Word;
    TopNone();
    TopLen(if n <= 32 then n else 0);
    if 1 <= n <= 32 then TopMask(n) else 0
  }

  /** An address and a mask, as `parsecidr4` returns them. */
  datatype Cidr = Cidr(ip: bv32, mask: bv32)

  /**
   * What `parsecidr4` accepts and returns. With a '/' after at least one character, everything
   * after it must be digits and gives the mask, and the text before it must be a dotted quad;
   * otherwise (no '/', or '/' first) the whole text must be a dotted quad and the mask is
   * 0xffffffff.
   */
  function Cidr4(s: string): (r: Result<Cidr>)
    ensures r.Err? ==> r.error == BadIP
  {
    var p := IndexByte(s, '/');
    if p > 0 then
      if !AllDigits(s[p + 1..]) then Err(BadIP)
      else
        match Ip4(s[..p])
        case Err(e) => Err(e)
        case Ok(ip) => Ok(Cidr(ip as bv32, SuffixMask(s[p + 1..])))
    else
      match Ip4(s)
      case Err(e) => Err(e)
      case Ok(ip) => Ok(Cidr(ip as bv32, 0xffff_ffff))
  }

  lemma SmallWord(n: nat)
    requires n < Word
    ensures n % Word == n
  {
  }

  /** The first '/' of `a/t` is the one after `a` when `a` has none. */
  lemma SlashAt(a: string, t: string)
    requires '/' !in a
    ensures var s := a + ['/'] + t;
      IndexByte(s, '/') == |a| && s[..|a|] == a && s[|a| + 1..] == t
  {
    var s := a + ['/'] + t;
    assert s[|a|] == '/';
    assert s[..|a|] == a;
  }

  /** `a/n` with `n` in 1..32 reads as the address `a` with the mask of its top `n` bits. */
  lemma CidrBlock(a: string, t: string)
    requires a != [] && '/' !in a && AllDigits(t) && 1 <= Decimal(t) <= 32
    ensures var r := Cidr4(a + ['/'] + t);
      r == (if Ip4(a).Ok? then Ok(Cidr(Ip4(a).value as bv32, TopMask(Decimal(t)))) else Err(BadIP))
    ensures PrefixLen(TopMask(Decimal(t))) == Decimal(t)
  {
    var s := a + ['/'] + t;
    SlashAt(a, t);
    assert Cidr4(s) == match Ip4(a)
      case Err(e) => Err(e)
      case Ok(ip) => Ok(Cidr(ip as bv32, SuffixMask(t)));
    SmallWord(Decimal(t));
    TopLen(Decimal(t));
  }

  /** Without a '/', the text is a single address: the mask is all ones, a walk of all 32 levels. */
  lemma CidrHost(a: string)
    requires '/' !in a
    ensures Cidr4(a) == if Ip4(a).Ok? then Ok(Cidr(Ip4(a).value as bv32, 0xffff_ffff)) else Err(BadIP)
    ensures PrefixLen(0xffff_ffff) == 32
  {
    TopLen(32);
    assert TopMask(32) == 0xffff_ffff;
  }

  /** `mask = mask*10 + uint32(c-'0')`: reading a digit into a wrapping `uint32`. */
  lemma DecimalWrap(x: string, c: char)
    requires AllDigits(x) && IsDigit(c)
    ensures AllDigits(x + [c]) && Decimal(x + [c]) % Word == (Decimal(x) % Word * 10 + DigitValue(c)) % Word
  {
    DecimalSnoc(x, c);
    var d, v := Decimal(x), DigitValue(c);
    var q, r := d / Word, d % Word;
    assert d == q * Word + r;
    assert d * 10 + v == (r * 10 + v) + (q * 10) * Word;
    AddWords(r * 10 + v, q * 10);
  }

  /** Adding whole multiples of 2^32 does not change a `uint32` value. */
  lemma AddWords(a: nat, k: nat)
    ensures (a + k * Word) % Word == a % Word
  {
    var t, m := a / Word, a % Word;
    assert a + k * Word == (t + k) * Word + m;
  }

  /** `32 - mask` in `uint32`: below 32 exactly when the mask length is in 1..32. */
  lemma WrapSub(m: nat)
    requires m < Word
    ensures (32 - m) % Word == if m <= 32 then 32 - m else Word + 32 - m
  {
    if m > 32 {
      assert 0 <= Word + 32 - m < Word;
      assert 32 - m == (Word + 32 - m) - Word;
    }
  }

  /** `0xffffffff << (32 - mask)` with a wrapping subtraction and Go's rule for wide shifts. */
  lemma ShiftMask(m: nat, shift: nat)
    requires m < Word && shift == (32 - m) % Word
    ensures (if shift >= 32 then 0 else (0xffff_ffff as bv32) << shift) == if 1 <= m <= 32 then TopMask(m) else 0
  {
    WrapSub(m);
    if 1 <= m <= 32 {
      TopShift(m);
    }
  }

  /**
   * The `/n` part of `parsecidr4`: read the digits after the '/' into a wrapping `uint32` and turn
   * the number into `0xffffffff << (32 - mask)`; any other character is ErrBadIP (`None`).
   */
  method ReadMask(digits: string) returns (mask: Option<bv32>)
    ensures mask == if AllDigits(digits) then Some(SuffixMask(digits)) else None
  {
    var m: nat := 0;
    for i := 0 to |digits|
      invariant AllDigits(digits[..i]) && m == Decimal(digits[..i]) % Word
    {
      var c := digits[i];
      if c < '0' || c > '9' {
        return None;
      }
      DecimalWrap(digits[..i], c);
      assert digits[..i + 1] == digits[..i] + [c];
      m := (m * 10 + DigitValue(c)) % Word;
    }
    assert digits[..|digits|] == digits;
    var shift := (32 - m) % Word;
    ShiftMask(m, shift);
    return Some(if shift >= 32 then 0 else 0xffff_ffff << shift);
  }

  /**
   * `parsecidr4`: find the first '/'; if it comes after at least one character, read what follows
   * it as the mask and cut it off; then read the address with `loadip4`. It answers exactly
   * `Cidr4(cidr)`.
   */
  method ParseCidr4(cidr: string) returns (r: Result<Cidr>)
    ensures r == Cidr4(cidr)
  {
    var mask: bv32;
    var addr := cidr;
    var p := IndexByte(cidr, '/');
    if p > 0 {
      var m := ReadMask(cidr[p + 1..]);
      if m.None? {
        return Err(BadIP);
      }
      mask := m.value;
      addr := cidr[..p];
    } else {
      mask := 0xffff_ffff;
    }
    var ip := LoadIp4(addr);
    if ip.Err? {
      return Err(ip.error);
    }
    return Ok(Cidr(ip.value as bv32, mask));
  }
}

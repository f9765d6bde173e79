/** Storage partitions of `src/principal.rs`: the derived tenant id and the identity
    string it is derived from. The keyed hash is not modelled: `digest` is its output. */
module TenantIds {
  import opened Wrappers
  import opened Texts

  const TENANT_LEN := 16
  const DIGEST_LEN := 32
  const ALPHABET := "0123456789abcdefghjkmnpqrstvwxyz"

  // ---- Reference reading of bytes and characters as numbers ----

  function Number(digits: seq<int>, base: int): int {
    if digits == [] then 0 else Number(digits[..|digits| - 1], base) * base + digits[|digits| - 1]
  }

  ghost predicate AllBelow(digits: seq<int>, base: int) {
    forall i :: 0 <= i < |digits| ==> 0 <= digits[i] < base
  }

  /** The characters named by a sequence of alphabet positions. */
  function Letters(digits: seq<int>): (s: string)
    requires AllBelow(digits, 32)
    ensures |s| == |digits|
  {
    seq(|digits|, i requires 0 <= i < |digits| => ALPHABET[digits[i]])
  }

  /** `text` is the tenant id of `digest`: sixteen characters whose base-32 reading is
      the base-256 reading of the first ten digest bytes. */
  ghost predicate IsTenantOf(text: string, digest: seq<Byte>)
    requires |digest| >= 10
  {
    exists digits: seq<int> ::
      && AllBelow(digits, 32) && |digits| == TENANT_LEN && text == Letters(digits)
      && Number(digits, 32) == Number(digest[..10], 256)
  }

  lemma MultipleAtLeast(k: int, base: int)
    requires base > 0 && k >= 1
    ensures k * base >= base
  {
  }

  lemma SmallMultiple(k: int, base: int)
    requires base > 0 && -base < k * base < base
    ensures k == 0
  {
    if k >= 1 { MultipleAtLeast(k, base); }
    if k <= -1 { MultipleAtLeast(-k, base); }
  }

  lemma {:induction false} NumberInjective(a: seq<int>, b: seq<int>, base: int)
    requires base > 0 && |a| == |b| && AllBelow(a, base) && AllBelow(b, base)
    requires Number(a, base) == Number(b, base)
    ensures a == b
  {
    if a != [] {
      var m := |a| - 1;
      var x, y := Number(a[..m], base), Number(b[..m], base);
      assert (x - y) * base == b[m] - a[m] by { assert (x - y) * base == x * base - y * base; }
      SmallMultiple(x - y, base);
      NumberInjective(a[..m], b[..m], base);
      assert a == a[..m] + [a[m]] && b == b[..m] + [b[m]];
    }
  }

  lemma AlphabetIncreases()
    ensures |ALPHABET| == 32
    ensures forall i :: 0 <= i < 31 ==> ALPHABET[i] < ALPHABET[i + 1]
  {
  }

  lemma {:induction false} AlphabetOrdered(i: int, j: int)
    requires 0 <= i < j < 32
    ensures ALPHABET[i] < ALPHABET[j]
    decreases j
  {
    AlphabetIncreases();
    if i < j - 1 { AlphabetOrdered(i, j - 1); }
  }

  lemma LettersInjective(a: seq<int>, b: seq<int>)
    requires AllBelow(a, 32) && AllBelow(b, 32) && Letters(a) == Letters(b)
    ensures a == b
  {
    forall i | 0 <= i < |a| ensures a[i] == b[i] {
      assert Letters(a)[i] == Letters(b)[i];
      if a[i] < b[i] { AlphabetOrdered(a[i], b[i]); }
      if b[i] < a[i] { AlphabetOrdered(b[i], a[i]); }
    }
  }

  // ---- The derivation loop ----

  /** `<<` and `>>`, and the `count` lowest bits of a number. */
  function Shl(n: int, count: nat): int {
    if count == 0 then n else 2 * Shl(n, count - 1)
  }

  function Shr(n: int, count: nat): int
    decreases count
  {
    if count == 0 then n else Shr(n / 2, count - 1)
  }

  function Low(n: int, count: nat): int
    decreases count
  {
    if count == 0 then 0 else 2 * Low(n / 2, count - 1) + n % 2
  }

  lemma {:induction false} ShlAdds(a: int, b: int, i: nat, j: nat)
    ensures Shl(a + b, i) == Shl(a, i) + Shl(b, i)
    ensures Shl(a, i + j) == Shl(Shl(a, j), i)
  {
    if i > 0 { ShlAdds(a, b, i - 1, j); }
  }

  lemma ShlConstants(n: int)
    ensures Shl(n, 5) == 32 * n && Shl(n, 8) == 256 * n
  {
    assert Shl(n, 1) == 2 * n && Shl(n, 2) == 2 * Shl(n, 1) && Shl(n, 3) == 2 * Shl(n, 2);
    assert Shl(n, 4) == 2 * Shl(n, 3) && Shl(n, 5) == 2 * Shl(n, 4);
    assert Shl(n, 6) == 2 * Shl(n, 5) && Shl(n, 7) == 2 * Shl(n, 6);
  }

  /** Bits pushed above the window by a shift do not change the window. */
  lemma {:induction false} LowIgnoresHighBits(n: int, m: int, j: nat, count: nat)
    requires count <= j
    ensures Low(n + Shl(m, j), count) == Low(n, count)
    decreases count
  {
    if count > 0 {
      assert (n + Shl(m, j)) / 2 == n / 2 + Shl(m, j - 1);
      LowIgnoresHighBits(n / 2, m, j - 1, count - 1);
    }
  }

  lemma {:induction false} LowOfShifted(n: int, y: int, j: nat, count: nat)
    requires 0 <= y < Shl(1, j)
    ensures Low(Shl(n, j) + y, count + j) == Shl(Low(n, count), j) + y
  {
    if j > 0 {
      assert (Shl(n, j) + y) / 2 == Shl(n, j - 1) + y / 2;
      LowOfShifted(n, y / 2, j - 1, count);
    }
  }

  lemma {:induction false} LowSplits(n: int, j: nat, count: nat)
    ensures Low(n, count + j) == Shl(Low(Shr(n, count), j), count) + Low(n, count)
    decreases count
  {
    if count > 0 {
      assert count - 1 + j == count + j - 1;
      LowSplits(n / 2, j, count - 1);
    }
  }

  lemma {:induction false} LowOfSmall(n: int, count: nat)
    requires 0 <= n < Shl(1, count)
    ensures Low(n, count) == n
    decreases count
  {
    if count > 0 { LowOfSmall(n / 2, count - 1); }
  }

  lemma LowFive(n: int)
    ensures Low(n, 5) == n % 32
  {
    ShlConstants(1);
    ShlConstants(n / 32);
    LowIgnoresHighBits(n % 32, n / 32, 5, 5);
    LowOfSmall(n % 32, 5);
  }

  /** `buffer << 8 | byte` on a 16-bit buffer: bits above the sixteenth are lost. */
  function Shift8(buffer: int, byte: Byte): (b: int)
    requires 0 <= buffer < 0x1_0000
    ensures 0 <= b < 0x1_0000
  {
    (buffer * 256) % 0x1_0000 + byte
  }

  lemma ShiftLosesHighByte(buffer: int, byte: Byte)
    requires 0 <= buffer < 0x1_0000
    ensures 256 * buffer + byte == Shift8(buffer, byte) + 65536 * (buffer / 256)
  {
    var high, low := buffer / 256, buffer % 256;
    assert buffer * 256 == 65536 * high + 256 * low;
    assert (buffer * 256) % 0x1_0000 == 256 * low;
  }

  lemma ShiftKeepsPending(buffer: int, byte: Byte, bits: nat)
    requires 0 <= buffer < 0x1_0000 && bits <= 8
    ensures Low(Shift8(buffer, byte), bits + 8) == 256 * Low(buffer, bits) + byte
  {
    var lost := buffer / 256;
    calc {
      Low(Shift8(buffer, byte), bits + 8);
      { LowIgnoresHighBits(Shift8(buffer, byte), lost, 16, bits + 8); }
      Low(Shift8(buffer, byte) + Shl(lost, 16), bits + 8);
      { ShlAdds(lost, 0, 8, 8); ShlConstants(lost); ShlConstants(Shl(lost, 8));
        ShiftLosesHighByte(buffer, byte); ShlConstants(buffer); }
      Low(Shl(buffer, 8) + byte, bits + 8);
      { ShlConstants(1); LowOfShifted(buffer, byte, 8, bits); }
      Shl(Low(buffer, bits), 8) + byte;
      { ShlConstants(Low(buffer, bits)); }
      256 * Low(buffer, bits) + byte;
    }
  }

  lemma NumberAppend(digits: seq<int>, d: int, base: int)
    ensures Number(digits + [d], base) == Number(digits, base) * base + d
  {
    assert (digits + [d])[..|digits|] == digits;
  }

  /** What the bits read so far amount to: the emitted digits, then the pending bits. */
  ghost predicate Pending(read: seq<Byte>, digits: seq<int>, buffer: int, bits: nat) {
    Number(read, 256) == Shl(Number(digits, 32), bits) + Low(buffer, bits)
  }

  lemma PendingAfterByte(read: seq<Byte>, digits: seq<int>, buffer: int, bits: nat, byte: Byte)
    requires 0 <= buffer < 0x1_0000 && bits <= 8 && Pending(read, digits, buffer, bits)
    ensures Pending(read + [byte], digits, Shift8(buffer, byte), bits + 8)
  {
    ShiftKeepsPending(buffer, byte, bits);
    NumberAppend(read, byte, 256);
    var n := Number(digits, 32);
    ShlAdds(n, 0, 8, bits);
    ShlConstants(Shl(n, bits));
  }

  lemma PendingAfterDigit(read: seq<Byte>, digits: seq<int>, buffer: int, bits: nat)
    requires Pending(read, digits, buffer, bits + 5)
    ensures Pending(read, digits + [Shr(buffer, bits) % 32], buffer, bits)
  {
    var n, d := Number(digits, 32), Shr(buffer, bits) % 32;
    LowSplits(buffer, 5, bits);
    LowFive(Shr(buffer, bits));
    NumberAppend(digits, d, 32);
    ShlConstants(n);
    ShlAdds(n, 0, bits, 5);
    ShlAdds(32 * n, d, bits, 0);
  }

  lemma LettersAppend(digits: seq<int>, d: int)
    requires AllBelow(digits, 32) && 0 <= d < 32
    ensures AllBelow(digits + [d], 32)
    ensures Letters(digits + [d]) == Letters(digits) + [ALPHABET[d]]
  {
  }

  /** All the loop knows: the text so far spells digits that match the bytes so far. */
  ghost predicate Progress(read: seq<Byte>, out: string, digits: seq<int>, buffer: int, bits: nat) {
    && AllBelow(digits, 32) && out == Letters(digits)
    && 0 <= buffer < 0x1_0000 && 8 * |read| == 5 * |digits| + bits
    && Pending(read, digits, buffer, bits)
  }

  lemma ProgressByByte(read: seq<Byte>, out: string, digits: seq<int>, buffer: int, bits: nat, byte: Byte)
    requires bits <= 8 && Progress(read, out, digits, buffer, bits)
    ensures Progress(read + [byte], out, digits, Shift8(buffer, byte), bits + 8)
  {
    PendingAfterByte(read, digits, buffer, bits, byte);
  }

  lemma ProgressByDigit(read: seq<Byte>, out: string, digits: seq<int>, buffer: int, bits: nat)
    requires Progress(read, out, digits, buffer, bits + 5)
    ensures var d := Shr(buffer, bits) % 32;
            Progress(read, out + [ALPHABET[d]], digits + [d], buffer, bits)
  {
    PendingAfterDigit(read, digits, buffer, bits);
    LettersAppend(digits, Shr(buffer, bits) % 32);
  }

  lemma ProgressStart()
    ensures Progress([], "", [], 0, 0)
  {
  }

  /** Sixteen characters take exactly ten bytes; fewer leave less than five bits. */
  lemma ProgressLengths(read: seq<Byte>, out: string, digits: seq<int>, buffer: int, bits: nat)
    requires Progress(read, out, digits, buffer, bits) && |read| <= 10 && |digits| <= TENANT_LEN
    requires bits < 5 || |out| == TENANT_LEN
    ensures |out| == |digits| && (|out| == TENANT_LEN <==> |read| == 10)
    ensures if |out| == TENANT_LEN then bits == 0 else bits <= 4
  {
  }

  lemma ProgressDone(digest: seq<Byte>, read: seq<Byte>, out: string, digits: seq<int>, buffer: int)
    requires |digest| >= 10 && |digits| == TENANT_LEN && read == digest[..10]
    requires Progress(read, out, digits, buffer, 0)
    ensures IsTenantOf(out, digest)
  {
  }

  /** The inner loop: emit characters while five bits are pending. */
  method Emit(ghost read: seq<Byte>, before: string, ghost given: seq<int>, buffer: int, pending: nat)
    returns (out: string, ghost digits: seq<int>, bits: nat)
    requires pending <= 12 && |given| < TENANT_LEN && Progress(read, before, given, buffer, pending)
    ensures |digits| <= TENANT_LEN && Progress(read, out, digits, buffer, bits)
    ensures bits < 5 || |out| == TENANT_LEN
  {
    out, digits, bits := before, given, pending;
    while bits >= 5 && |out| < TENANT_LEN
      invariant bits <= 12 && |digits| <= TENANT_LEN && Progress(read, out, digits, buffer, bits)
    {
      ProgressByDigit(read, out, digits, buffer, bits - 5);
      bits := bits - 5;
      var index := Shr(buffer, bits) % 32;
      out := out + [ALPHABET[index]];
      digits := digits + [index];
    }
  }

  /** One byte: shift it in, emit what is complete. */
  method TakeByte(ghost read: seq<Byte>, before: string, ghost given: seq<int>, old_: int, kept: nat, byte: Byte)
    returns (out: string, ghost digits: seq<int>, buffer: int, bits: nat)
    requires kept <= 4 && |given| < TENANT_LEN && Progress(read, before, given, old_, kept)
    ensures |out| == |digits| <= TENANT_LEN && 8 * (|read| + 1) == 5 * |digits| + bits
    ensures Progress(read + [byte], out, digits, buffer, bits) && (bits < 5 || |out| == TENANT_LEN)
  {
    ProgressByByte(read, before, given, old_, kept, byte);
    buffer := Shift8(old_, byte);
    bits := kept + 8;
    out, digits, bits := Emit(read + [byte], before, given, buffer, bits);
  }

  method Derive(digest: seq<Byte>) returns (out: string)
    requires |digest| == DIGEST_LEN
    ensures IsTenantOf(out, digest)
  {
    out := "";
    var buffer: int := 0;
    var bits: nat := 0;
    ghost var read: seq<Byte> := [];
    ghost var digits: seq<int> := [];
    var i := 0;
    ProgressStart();
    while i < |digest|
      invariant 0 <= i < 10 && bits <= 4 && |digits| < TENANT_LEN
      invariant read == digest[..i] && Progress(read, out, digits, buffer, bits)
    {
      out, digits, buffer, bits := TakeByte(read, out, digits, buffer, bits, digest[i]);
      read := read + [digest[i]];
      i := i + 1;
      ProgressLengths(read, out, digits, buffer, bits);
      if |out| == TENANT_LEN {
        ProgressDone(digest, read, out, digits, buffer);
        return;
      }
    }
  }

  /** Equal ids mean equal leading bytes, and the other way round: the lossy buffer
      does not merge any two of the 2^80 prefixes. */
  lemma TenantIdInjective(a: string, b: string, da: seq<Byte>, db: seq<Byte>)
    requires |da| >= 10 && |db| >= 10 && IsTenantOf(a, da) && IsTenantOf(b, db)
    ensures a == b <==> da[..10] == db[..10]
  {
    var x :| AllBelow(x, 32) && |x| == TENANT_LEN && a == Letters(x)
             && Number(x, 32) == Number(da[..10], 256);
    var y :| AllBelow(y, 32) && |y| == TENANT_LEN && b == Letters(y)
             && Number(y, 32) == Number(db[..10], 256);
    if a == b {
      LettersInjective(x, y);
      NumberInjective(da[..10], db[..10], 256);
    }
    if da[..10] == db[..10] {
      NumberInjective(x, y, 32);
    }
  }

  /** `TenantId::parse`: only text already in the derived shape is accepted, unchanged. */
  function Parse(value: string): Option<string> {
    if |value| == TENANT_LEN && forall c | c in value :: c in ALPHABET then Some(value) else None
  }

  lemma AlphabetHasNoSeparator(c: char)
    requires c in ALPHABET
    ensures c != '|' && c != '/' && c != '.'
  {
    AlphabetIncreases();
    var i :| 0 <= i < |ALPHABET| && ALPHABET[i] == c;
    if i > 0 { AlphabetOrdered(0, i); }
    if i < 31 { AlphabetOrdered(i, 31); }
    assert ALPHABET[0] == '0' && ALPHABET[31] == 'z';
  }

  lemma ParseAcceptsDerived(text: string, digest: seq<Byte>)
    requires |digest| >= 10 && IsTenantOf(text, digest)
    ensures Parse(text) == Some(text)
    ensures '|' !in text && '/' !in text && '.' !in text
  {
    var digits :| AllBelow(digits, 32) && |digits| == TENANT_LEN && text == Letters(digits);
    forall c | c in text ensures c in ALPHABET && c != '|' && c != '/' && c != '.' {
      var i :| 0 <= i < |text| && text[i] == c;
      assert c == ALPHABET[digits[i]];
      AlphabetHasNoSeparator(c);
    }
  }

  // ---- The identity a tenant is derived from ----

  datatype Principal =
    | User(subject: string, issuer: string, name: Option<string>)
    | Service(key: string)

  const NUL: char := '\0'

  function Identity(p: Principal): string {
    match p
    case User(subject, issuer, _) => "oidc" + [NUL] + issuer + [NUL] + subject
    case Service(key) => "key" + [NUL] + key
  }

  /** Who a principal is for storage purposes; the display name is not part of it. */
  datatype Who = Person(issuer: string, subject: string) | Machine(key: string)

  function WhoIs(p: Principal): Who {
    match p
    case User(subject, issuer, _) => Person(issuer, subject)
    case Service(key) => Machine(key)
  }

  /** Two joins are equal exactly when their parts are, or when the longer front part starts
      with the shorter and the separator, and what follows moved to the other back part. */
  ghost predicate MovesSeparator(a: string, b: string, x: string, y: string, sep: char) {
    a + [sep] <= x && b == x[|a| + 1..] + [sep] + y
  }

  lemma MoveNeedsSeparator(a: string, x: string, sep: char)
    ensures a + [sep] <= x ==> sep in x
  {
    if a + [sep] <= x { assert x[|a|] == sep; }
  }

  lemma JoinMoves(a: string, b: string, x: string, y: string, sep: char)
    requires |a| < |x|
    ensures a + [sep] + b == x + [sep] + y <==> MovesSeparator(a, b, x, y, sep)
  {
    var s, t := a + [sep] + b, x + [sep] + y;
    if s == t {
      assert a + [sep] == s[..|a| + 1] == t[..|a| + 1] == x[..|a| + 1];
      assert b == s[|a| + 1..] == t[|a| + 1..] == x[|a| + 1..] + [sep] + y;
    }
    if MovesSeparator(a, b, x, y, sep) {
      assert x == a + [sep] + x[|a| + 1..];
      assert s == a + [sep] + x[|a| + 1..] + [sep] + y;
    }
  }

  lemma JoinsEqual(a: string, b: string, x: string, y: string, sep: char)
    ensures a + [sep] + b == x + [sep] + y
       <==> (a == x && b == y) || MovesSeparator(a, b, x, y, sep) || MovesSeparator(x, y, a, b, sep)
  {
    if |a| < |x| {
      JoinMoves(a, b, x, y, sep);
    } else if |x| < |a| {
      JoinMoves(x, y, a, b, sep);
    } else if a + [sep] + b == x + [sep] + y {
      assert a == (a + [sep] + b)[..|a|] && x == (x + [sep] + y)[..|x|];
      assert b == (a + [sep] + b)[|a| + 1..] && y == (x + [sep] + y)[|x| + 1..];
    }
  }

  lemma UserIdentity(p: Principal)
    requires p.User?
    ensures Identity(p) == "oidc" + [NUL] + (p.issuer + [NUL] + p.subject)
    ensures Identity(p)[5..] == p.issuer + [NUL] + p.subject
  {
    assert Identity(p)[5..] == p.issuer + [NUL] + p.subject;
    assert Identity(p) == "oidc" + [NUL] + (p.issuer + [NUL] + p.subject);
  }

  lemma UserIdentities(p: Principal, q: Principal)
    requires p.User? && q.User?
    ensures Identity(p) == Identity(q) <==> p.issuer + [NUL] + p.subject == q.issuer + [NUL] + q.subject
  {
    UserIdentity(p);
    UserIdentity(q);
  }

  /** Two users that read as one: the issuer of the second goes on, after a NUL, with what
      the subject of the first begins with. */
  ghost predicate Shifted(p: Principal, q: Principal) {
    p.User? && q.User? && MovesSeparator(p.issuer, p.subject, q.issuer, q.subject, NUL)
  }

  /** When two principals share an identity: exactly when they are the same caller, or two
      users one of whom is the other with a NUL of its issuer taken for the separator.
      Service labels never meet users. */
  lemma IdentityInjective(p: Principal, q: Principal)
    ensures Identity(p) == Identity(q) <==> WhoIs(p) == WhoIs(q) || Shifted(p, q) || Shifted(q, p)
  {
    assert Identity(p)[0] == if p.User? then 'o' else 'k';
    assert Identity(q)[0] == if q.User? then 'o' else 'k';
    if p.User? && q.User? {
      UserIdentities(p, q);
      JoinsEqual(p.issuer, p.subject, q.issuer, q.subject, NUL);
    } else if !p.User? && !q.User? {
      assert Identity(p)[4..] == p.key && Identity(q)[4..] == q.key;
    }
  }

  /** So identities separate principals as long as issuers hold no NUL, whatever the token's
      subject contains. */
  lemma IdentityInjectiveWithoutNul(p: Principal, q: Principal)
    requires p.User? ==> NUL !in p.issuer
    requires q.User? ==> NUL !in q.issuer
    ensures Identity(p) == Identity(q) <==> WhoIs(p) == WhoIs(q)
  {
    IdentityInjective(p, q);
    if p.User? && q.User? {
      MoveNeedsSeparator(p.issuer, q.issuer, NUL);
      MoveNeedsSeparator(q.issuer, p.issuer, NUL);
    }
  }

  /** With one issuer (the validator accepts only the configured one) no condition is
      needed at all. */
  lemma IdentityInjectiveForOneIssuer(p: Principal, q: Principal)
    requires p.User? && q.User? && p.issuer == q.issuer
    ensures Identity(p) == Identity(q) <==> p.subject == q.subject
  {
    assert Identity(p)[6 + |p.issuer|..] == p.subject;
    assert Identity(q)[6 + |q.issuer|..] == q.subject;
  }

  /** Which issuers can be confused: the separator claim fails for two different ones exactly
      when one of them begins with the other and a NUL. */
  lemma IdentityCollidesOnNulIssuer(i: string, j: string)
    requires i != j
    ensures (exists s, t :: Identity(User(s, i, None)) == Identity(User(t, j, None)))
       <==> i + [NUL] <= j || j + [NUL] <= i
  {
    if i + [NUL] <= j {
      IssuersCollide(i, j);
    } else if j + [NUL] <= i {
      IssuersCollide(j, i);
    }
    forall s, t | Identity(User(s, i, None)) == Identity(User(t, j, None)) ensures i + [NUL] <= j || j + [NUL] <= i {
      IdentityInjective(User(s, i, None), User(t, j, None));
    }
  }

  lemma IssuersCollide(i: string, j: string)
    requires i + [NUL] <= j
    ensures Identity(User(j[|i| + 1..] + [NUL], i, None)) == Identity(User("", j, None))
  {
    var p, q := User(j[|i| + 1..] + [NUL], i, None), User("", j, None);
    assert p.subject == j[|i| + 1..] + [NUL] + "";
    IdentityInjective(p, q);
  }
}

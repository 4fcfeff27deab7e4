/** The password endpoint of the toolkit, `/tools/password/generate`: the
    query selects character classes, the selected classes are concatenated
    into a pool, and the password is `length` characters drawn from the pool
    with replacement. The random source is a parameter: `draw(k)` is the
    k-th random choice, reduced modulo the pool size. */
module PasswordTools {
  import opened Common

  const MinLength: int := 4
  const MaxLength: int := 128
  const NoCharacterSet: string := "At least one character set must be selected."

  /** Python's `string.ascii_lowercase`, "abcdefghijklmnopqrstuvwxyz". */
  const Lowercase: string := Run('a', 26)
  /** `string.ascii_uppercase`, "ABCDEFGHIJKLMNOPQRSTUVWXYZ". */
  const Uppercase: string := Run('A', 26)
  /** `string.digits`, "0123456789". */
  const Digits: string := Run('0', 10)
  /** `string.punctuation`, the 32 characters
      !"#$%&'()*+,-./:;<=>?@[\]^_`{|}~ in ASCII order. */
  const Punctuation: string := Run('!', 15) + Run(':', 7) + Run('[', 6) + Run('{', 4)

  /** The query parameters of the endpoint. */
  datatype Query = Query(
    length: int,
    symbols: bool,
    numbers: bool,
    uppercase: bool,
    lowercase: bool)

  /** The defaults: 12 characters, every class selected. */
  const DefaultQuery: Query := Query(12, true, true, true, true)

  /** What the endpoint answers: a password, a 400 error with its detail, or
      the 422 answer of the query validation. */
  datatype Response = Ok(password: string) | BadRequest(detail: string) | Unprocessable

  predicate IsLower(c: char) { 'a' <= c <= 'z' }
  predicate IsUpper(c: char) { 'A' <= c <= 'Z' }
  /** The printable ASCII characters that are neither letters, digits nor
      space. */
  predicate IsPunctuation(c: char) {
    ('!' <= c <= '/') || (':' <= c <= '@') || ('[' <= c <= '`') || ('{' <= c <= '~')
  }

  /** `n` consecutive ASCII characters starting at `first`. */
  function Run(first: char, n: nat): (s: string)
    requires first as int + n <= 0x80
    ensures |s| == n
    ensures forall i :: 0 <= i < n ==> s[i] as int == first as int + i
  {
    seq(n, i requires 0 <= i < n => (first as int + i) as char)
  }

  /** A character is in a run exactly when it lies in its range. */
  lemma InRun(first: char, n: nat, c: char)
    requires first as int + n <= 0x80
    ensures c in Run(first, n) <==> first <= c && c as int < first as int + n
  {
    if first <= c && c as int < first as int + n {
      assert Run(first, n)[c as int - first as int] == c;
    }
  }

  /** Membership in each class is its range test. */
  lemma ClassMembers(c: char)
    ensures c in Lowercase <==> IsLower(c)
    ensures c in Uppercase <==> IsUpper(c)
    ensures c in Digits <==> IsDigit(c)
    ensures c in Punctuation <==> IsPunctuation(c)
  {
    InRun('a', 26, c);
    InRun('A', 26, c);
    InRun('0', 10, c);
    InRun('!', 15, c);
    InRun(':', 7, c);
    InRun('[', 6, c);
    InRun('{', 4, c);
  }

  /** The pool of a query: the selected classes, lowercase first, then
      uppercase, digits and punctuation. */
  function Pool(q: Query): string {
    (if q.lowercase then Lowercase else "")
    + (if q.uppercase then Uppercase else "")
    + (if q.numbers then Digits else "")
    + (if q.symbols then Punctuation else "")
  }

  /** The characters a query allows. */
  predicate Allowed(q: Query, c: char) {
    || (q.lowercase && IsLower(c))
    || (q.uppercase && IsUpper(c))
    || (q.numbers && IsDigit(c))
    || (q.symbols && IsPunctuation(c))
  }

  /** Building the pool: start from the empty string and append each selected
      class in turn. */
  method BuildPool(q: Query) returns (pool: string)
    ensures pool == Pool(q)
  {
    pool := "";
    if q.lowercase {
      pool := pool + Lowercase;
    }
    if q.uppercase {
      pool := pool + Uppercase;
    }
    if q.numbers {
      pool := pool + Digits;
    }
    if q.symbols {
      pool := pool + Punctuation;
    }
  }

  /** The pool holds exactly the characters the query allows. */
  lemma PoolMembers(q: Query, c: char)
    ensures c in Pool(q) <==> Allowed(q, c)
  {
    ClassMembers(c);
  }

  /** The pool is empty exactly when no class is selected. */
  lemma PoolEmpty(q: Query)
    ensures Pool(q) == [] <==> !q.lowercase && !q.uppercase && !q.numbers && !q.symbols
  {
  }

  /** The pool size is the sum of the sizes of the selected classes. */
  lemma PoolSize(q: Query)
    ensures |Pool(q)| ==
      (if q.lowercase then 26 else 0) + (if q.uppercase then 26 else 0)
      + (if q.numbers then 10 else 0) + (if q.symbols then 32 else 0)
  {
  }

  predicate Distinct(s: string) {
    forall i, j :: 0 <= i < j < |s| ==> s[i] != s[j]
  }

  lemma DistinctRun(first: char, n: nat)
    requires first as int + n <= 0x80
    ensures Distinct(Run(first, n))
  {
  }

  /** Two strings without repeats and without common characters make a
      string without repeats. */
  lemma DistinctAppend(a: string, b: string)
    requires Distinct(a) && Distinct(b)
    requires forall c :: c in a ==> c !in b
    ensures Distinct(a + b)
  {
    var s := a + b;
    forall i, j | 0 <= i < j < |s|
      ensures s[i] != s[j]
    {
      if i < |a| && |a| <= j {
        assert s[i] in a && s[j] == b[j - |a|];
      }
    }
  }

  lemma PunctuationDistinct()
    ensures Distinct(Punctuation)
  {
    var p1, p2, p3, p4 := Run('!', 15), Run(':', 7), Run('[', 6), Run('{', 4);
    DistinctRun('!', 15);
    DistinctRun(':', 7);
    DistinctRun('[', 6);
    DistinctRun('{', 4);
    DistinctAppend(p1, p2);
    DistinctAppend(p1 + p2, p3);
    DistinctAppend(p1 + p2 + p3, p4);
  }

  /** The pool never repeats a character: the classes are disjoint and none
      repeats a character. */
  lemma PoolDistinct(q: Query)
    ensures Distinct(Pool(q))
  {
    DistinctRun('a', 26);
    DistinctRun('A', 26);
    DistinctRun('0', 10);
    PunctuationDistinct();
    var l := if q.lowercase then Lowercase else "";
    var u := if q.uppercase then Uppercase else "";
    var d := if q.numbers then Digits else "";
    var s := if q.symbols then Punctuation else "";
    forall c | c in l + u + d + s {
      ClassMembers(c);
    }
    DistinctAppend(l, u);
    DistinctAppend(l + u, d);
    DistinctAppend(l + u + d, s);
  }

  /** `random.choices(pool, k=n)`: `n` characters of the pool, the k-th
      chosen by the k-th draw. */
  function Choices(pool: string, draw: nat -> nat, n: nat): (s: string)
    requires pool != []
    ensures |s| == n
    ensures forall i :: 0 <= i < n ==> s[i] in pool
  {
    if n == 0 then [] else Choices(pool, draw, n - 1) + [pool[draw(n - 1) % |pool|]]
  }

  /** `generate_password`: the query validation, the empty-pool check, and
      the draws. */
  function Generate(q: Query, draw: nat -> nat): Response {
    if !(MinLength <= q.length <= MaxLength) then Unprocessable
    else if Pool(q) == [] then BadRequest(NoCharacterSet)
    else Ok(Choices(Pool(q), draw, q.length))
  }

  /** The handler as written: build the pool, refuse an empty one, then
      append one drawn character at a time. */
  method GeneratePassword(q: Query, draw: nat -> nat) returns (r: Response)
    ensures r == Generate(q, draw)
  {
    if !(MinLength <= q.length <= MaxLength) {
      return Unprocessable;
    }
    var pool := BuildPool(q);
    if pool == "" {
      return BadRequest(NoCharacterSet);
    }
    var password := "";
    var k := 0;
    while k < q.length
      invariant 0 <= k <= q.length
      invariant password == Choices(pool, draw, k)
    {
      password := password + [pool[draw(k) % |pool|]];
      k := k + 1;
    }
    return Ok(password);
  }

  /** Which answer a query gets: 422 exactly when the length is outside
      4..128, otherwise 400 exactly when no class is selected, otherwise a
      password of the requested length made of allowed characters. */
  lemma GenerateOutcome(q: Query, draw: nat -> nat)
    ensures Generate(q, draw).Unprocessable? <==> q.length < MinLength || q.length > MaxLength
    ensures Generate(q, draw).BadRequest? <==>
      MinLength <= q.length <= MaxLength
      && !q.lowercase && !q.uppercase && !q.numbers && !q.symbols
    ensures Generate(q, draw).BadRequest? ==> Generate(q, draw).detail == NoCharacterSet
    ensures Generate(q, draw).Ok? ==>
      && |Generate(q, draw).password| == q.length
      && forall i :: 0 <= i < q.length ==> Allowed(q, Generate(q, draw).password[i])
  {
    PoolEmpty(q);
    var r := Generate(q, draw);
    if r.Ok? {
      forall i | 0 <= i < q.length
        ensures Allowed(q, r.password[i])
      {
        PoolMembers(q, r.password[i]);
      }
    }
  }

  /** Without punctuation, a password is letters and digits only. */
  lemma NoSymbols(q: Query, draw: nat -> nat)
    requires !q.symbols && Generate(q, draw).Ok?
    ensures forall i :: 0 <= i < |Generate(q, draw).password| ==>
      var c := Generate(q, draw).password[i];
      IsLower(c) || IsUpper(c) || IsDigit(c)
  {
    GenerateOutcome(q, draw);
  }

  /** The default query gives 12 characters, and asking for 20 gives 20. */
  lemma DefaultLengths(draw: nat -> nat)
    ensures Generate(DefaultQuery, draw).Ok?
    ensures |Generate(DefaultQuery, draw).password| == 12
    ensures Generate(DefaultQuery.(length := 20), draw).Ok?
    ensures |Generate(DefaultQuery.(length := 20), draw).password| == 20
  {
    GenerateOutcome(DefaultQuery, draw);
    GenerateOutcome(DefaultQuery.(length := 20), draw);
  }

  /** The position of a pool character. */
  function IndexOf(pool: string, c: char): (k: nat)
    requires c in pool
    ensures k < |pool| && pool[k] == c
  {
    if pool[0] == c then 0 else 1 + IndexOf(pool[1..], c)
  }

  /** Draws that pick the characters of `s` one by one yield `s`. */
  lemma {:induction false} ChoicesOf(pool: string, s: string, draw: nat -> nat)
    requires pool != []
    requires forall i :: 0 <= i < |s| ==> pool[draw(i) % |pool|] == s[i]
    ensures Choices(pool, draw, |s|) == s
  {
    if s != [] {
      var n := |s| - 1;
      ChoicesOf(pool, s[..n], draw);
      assert s == s[..n] + [s[n]];
    }
  }

  /** Any string over a pool is what some draws choose. */
  lemma ChoicesReach(pool: string, s: string)
    requires pool != []
    requires forall i :: 0 <= i < |s| ==> s[i] in pool
    ensures exists draw: nat -> nat :: Choices(pool, draw, |s|) == s
  {
    var draw := DrawsOf(pool, s);
    ChoicesOf(pool, s, draw);
  }

  /** The draws that pick the positions of the characters of `s`. */
  lemma DrawsOf(pool: string, s: string) returns (draw: nat -> nat)
    requires pool != []
    requires forall i :: 0 <= i < |s| ==> s[i] in pool
    ensures forall i :: 0 <= i < |s| ==> pool[draw(i) % |pool|] == s[i]
  {
    draw := (i: nat) => if i < |s| then IndexOf(pool, s[i]) else 0;
    forall i | 0 <= i < |s|
      ensures pool[draw(i) % |pool|] == s[i]
    {
      var k := IndexOf(pool, s[i]);
      assert draw(i) == k;
      SmallMod(k, |pool|);
    }
  }

  lemma SmallMod(k: nat, n: nat)
    requires k < n
    ensures k % n == k
  {
  }

  /** Every password of the requested length over the allowed characters
      can come out: no allowed string is out of reach of the draws. */
  lemma Reachable(q: Query, s: string)
    requires MinLength <= q.length <= MaxLength && |s| == q.length
    requires forall i :: 0 <= i < |s| ==> Allowed(q, s[i])
    ensures exists draw: nat -> nat :: Generate(q, draw) == Ok(s)
  {
    var pool := Pool(q);
    forall i | 0 <= i < |s|
      ensures s[i] in pool
    {
      PoolMembers(q, s[i]);
    }
    assert s[0] in pool;
    ChoicesReach(pool, s);
    var draw: nat -> nat :| Choices(pool, draw, |s|) == s;
    assert Generate(q, draw) == Ok(s);
  }
}

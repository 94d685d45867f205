/**
 * `Sensu::Helpers.random_password`: a rejection-sampling loop that draws one
 * random byte at a time, keeps it only when it is an ASCII word character,
 * and grows a password until it has the requested length and holds one
 * character of every requested class (digit, upper, lower, special).
 *
 * The random source is a parameter: `bytes` is the sequence of bytes the
 * source would hand out, in order. When the loop wants a byte past its end,
 * the model reports `None` (the source ran dry) instead of looping forever.
 */
module Password {
  import opened Wrappers

  /** One byte handed out by the random source. */
  newtype byte = x: int | 0 <= x < 256

  predicate IsDigit(c: char) { '0' <= c <= '9' }
  predicate IsLower(c: char) { 'a' <= c <= 'z' }
  predicate IsUpper(c: char) { 'A' <= c <= 'Z' }

  /** A character that Ruby's `\w` matches in a binary string. */
  predicate IsWordChar(c: char) { IsDigit(c) || IsUpper(c) || IsLower(c) || c == '_' }

  /** `random_bytes(1).gsub(/\W/, '')`: the byte as a one-character string, or "" when it is not a word character. */
  function Scrub(b: byte): (r: string)
    ensures |r| <= 1 && AllWordChars(r)
    ensures r != [] <==> IsWordChar(b as int as char)
    ensures r != [] ==> r[0] == b as int as char
  {
    var ch := b as int as char;
    if IsWordChar(ch) then [ch] else []
  }

  /** The filter keeps exactly the bytes of `0-9`, `A-Z`, `_` and `a-z`; every byte from 0x80 up is dropped. */
  lemma ScrubKeepsWordBytes(b: byte)
    ensures Scrub(b) != [] <==> (48 <= b <= 57 || 65 <= b <= 90 || b == 95 || 97 <= b <= 122)
    ensures Scrub(b) != [] ==> Scrub(b) == [b as int as char]
    ensures 128 <= b ==> Scrub(b) == []
  {
  }

  /** The word characters of a byte stream, in order. */
  function Words(bytes: seq<byte>): string
  {
    if bytes == [] then [] else Scrub(bytes[0]) + Words(bytes[1..])
  }

  /** `requiredOffset` after its four increments: the number of requested classes. */
  function RequiredClasses(number: bool, upper: bool, lower: bool, special: bool): nat
  {
    (if number then 1 else 0) + (if upper then 1 else 0) + (if lower then 1 else 0) + (if special then 1 else 0)
  }

  /** `length` after it is raised to the number of requested classes. */
  function TargetLength(length: int, number: bool, upper: bool, lower: bool, special: bool): nat
  {
    var k := RequiredClasses(number, upper, lower, special);
    if length < k then k else length
  }

  predicate HasDigit(s: string) { exists c :: c in s && IsDigit(c) }
  predicate HasUpper(s: string) { exists c :: c in s && IsUpper(c) }
  predicate HasLower(s: string) { exists c :: c in s && IsLower(c) }
  predicate AllWordChars(s: string) { forall c :: c in s ==> IsWordChar(c) }

  /** What the source promises of a password it returns. */
  ghost predicate Satisfies(password: string, length: int, number: bool, upper: bool, lower: bool, special: bool)
  {
    && |password| == TargetLength(length, number, upper, lower, special)
    && AllWordChars(password)
    && (number ==> HasDigit(password))
    && (upper ==> HasUpper(password))
    && (lower ==> HasLower(password))
    && (special ==> '_' in password)
  }

  /**
   * The class bookkeeping of the loop: `requiredOffset` and the four class
   * flags, a flag being cleared once its class has been drawn.
   */
  datatype Needs = Needs(required: int, number: bool, upper: bool, lower: bool, special: bool)

  /** The loop's variables: the buffer, the class bookkeeping and `limit`, the guard computed in the previous round. */
  datatype Gen = Gen(password: string, needs: Needs, limit: bool)

  /** The state just before the loop. */
  function Start(length: int, number: bool, upper: bool, lower: bool, special: bool): (r: Gen)
    ensures r.password == [] && r.needs == Needs(RequiredClasses(number, upper, lower, special), number, upper, lower, special)
    ensures r.limit <==> RequiredClasses(number, upper, lower, special) < length
  {
    var k := RequiredClasses(number, upper, lower, special);
    Gen("", Needs(k, number, upper, lower, special), 0 < TargetLength(length, number, upper, lower, special) - k)
  }

  /** The classification chain: digit, then `a..z`, then `A..Z`, then anything else counts as special. */
  function Classify(n: Needs, ch: char): (r: Needs)
    ensures r.number == (n.number && !IsDigit(ch))
    ensures r.lower == (n.lower && (IsDigit(ch) || !IsLower(ch)))
    ensures r.upper == (n.upper && (IsDigit(ch) || IsLower(ch) || !IsUpper(ch)))
    ensures r.special == (n.special && (IsDigit(ch) || IsLower(ch) || IsUpper(ch)))
    ensures r.required == n.required - (RequiredClasses(n.number, n.upper, n.lower, n.special) - RequiredClasses(r.number, r.upper, r.lower, r.special))
  {
    if IsDigit(ch) then n.(required := if n.number then n.required - 1 else n.required, number := false)
    else if IsLower(ch) then n.(required := if n.lower then n.required - 1 else n.required, lower := false)
    else if IsUpper(ch) then n.(required := if n.upper then n.required - 1 else n.required, upper := false)
    else n.(required := if n.special then n.required - 1 else n.required, special := false)
  }

  /** One round of the loop body, once the drawn byte has been scrubbed to `c`; `target` is the raised length. */
  function Round(g: Gen, target: int, c: string): (r: Gen)
    ensures g.password <= r.password && |r.password| <= |g.password| + |c|
    ensures r.limit ==> r.password == g.password + c
    ensures r.needs.required <= g.needs.required
  {
    var h := if c != [] then g.(needs := Classify(g.needs, c[0])) else g;
    var limit := |h.password| < target - h.needs.required;
    h.(limit := limit, password := if limit then h.password + c else h.password)
  }

  /** One round of the loop body on the drawn byte `b`. */
  function Step(g: Gen, target: int, b: byte): Gen
  {
    Round(g, target, Scrub(b))
  }

  /**
   * One round, told from the bookkeeping `n` that classifying the scrubbed
   * byte `c` leads to: `limit` is recomputed and `c` appended when it holds.
   */
  lemma StepFromClassified(g: Gen, target: int, b: byte, c: string, n: Needs)
    requires c == Scrub(b)
    requires n == if c != [] then Classify(g.needs, c[0]) else g.needs
    ensures var limit := |g.password| < target - n.required;
            Step(g, target, b) == Gen(if limit then g.password + c else g.password, n, limit)
  {
  }

  /** The loop guard. */
  predicate Running(g: Gen)
  {
    g.limit || g.needs.required > 0
  }

  /** A finished run: the password and how many bytes were drawn for it. */
  datatype Generated = Generated(password: string, drawn: nat)

  /**
   * The loop from state `g`, the next byte to draw being `bytes[i]`; `None`
   * when the stream runs out first. `drawn` counts the bytes drawn since the start.
   */
  function Run(g: Gen, target: int, bytes: seq<byte>, i: nat): (r: Option<Generated>)
    requires i <= |bytes|
    ensures r.Some? ==> i <= r.value.drawn <= |bytes| && (Running(g) ==> i < r.value.drawn)
    ensures r.Some? ==> g.password <= r.value.password
    decreases |bytes| - i
  {
    if !Running(g) then Some(Generated(g.password, i))
    else if i == |bytes| then None
    else Run(Step(g, target, bytes[i]), target, bytes, i + 1)
  }

  /** The states a run passes through, the first `|trace| - 1` bytes drawn: each is still running and the next is one round on from it. */
  ghost predicate IsTrace(trace: seq<Gen>, target: int, bytes: seq<byte>)
  {
    && |trace| <= |bytes| + 1
    && forall k :: 0 <= k < |trace| - 1 ==> StepsTo(trace, target, bytes, k)
  }

  /** State `k` of the trace is still running and state `k + 1` is one round on from it. */
  ghost predicate StepsTo(trace: seq<Gen>, target: int, bytes: seq<byte>, k: nat)
    requires k + 1 < |trace| && k < |bytes|
  {
    Running(trace[k]) && trace[k + 1] == Step(trace[k], target, bytes[k])
  }

  /** A trace grows by one round while its last state is still running. */
  lemma AdvanceTrace(trace: seq<Gen>, target: int, bytes: seq<byte>, i: nat, next: Gen)
    requires IsTrace(trace, target, bytes) && |trace| == i + 1 && i < |bytes|
    requires Running(trace[i]) && next == Step(trace[i], target, bytes[i])
    ensures IsTrace(trace + [next], target, bytes)
    ensures |trace + [next]| == i + 2 && (trace + [next])[0] == trace[0] && (trace + [next])[i + 1] == next
  {
    var t := trace + [next];
    forall k | 0 <= k < |t| - 1
      ensures StepsTo(t, target, bytes, k)
    {
      if k < i {
        assert StepsTo(trace, target, bytes, k);
      }
    }
  }

  /** A run from the head of a trace is the run from any of its states, resumed at that position. */
  lemma {:induction false} TraceRun(trace: seq<Gen>, target: int, bytes: seq<byte>, k: nat)
    requires IsTrace(trace, target, bytes) && k < |trace|
    ensures Run(trace[0], target, bytes, 0) == Run(trace[k], target, bytes, k)
  {
    if k > 0 {
      TraceRun(trace, target, bytes, k - 1);
      assert StepsTo(trace, target, bytes, k - 1);
    }
  }

  /**
   * `random_password(length, number, upper, lower, special)` fed with `bytes`.
   * With nothing to generate, the loop stops before drawing.
   */
  function Generate(length: int, number: bool, upper: bool, lower: bool, special: bool, bytes: seq<byte>): (r: Option<Generated>)
    ensures r.Some? ==> r.value.drawn <= |bytes|
    ensures length <= 0 && !number && !upper && !lower && !special ==> r == Some(Generated("", 0))
  {
    Run(Start(length, number, upper, lower, special), TargetLength(length, number, upper, lower, special), bytes, 0)
  }

  /** `requiredOffset` counts the flags still set, and a flag is only ever cleared. */
  predicate Counting(n: Needs, number: bool, upper: bool, lower: bool, special: bool)
  {
    && n.required == RequiredClasses(n.number, n.upper, n.lower, n.special)
    && (n.number ==> number) && (n.upper ==> upper) && (n.lower ==> lower) && (n.special ==> special)
  }

  /**
   * The buffer leaves room for one character per class still required, and it
   * is full once `limit` is false.
   */
  predicate Room(g: Gen, target: nat)
  {
    && |g.password| + g.needs.required <= target
    && (!g.limit ==> target <= |g.password| + g.needs.required)
  }

  /** Every class that was requested and is no longer required has a character in the buffer. */
  predicate Covered(g: Gen, number: bool, upper: bool, lower: bool, special: bool)
  {
    && (number && !g.needs.number ==> HasDigit(g.password))
    && (upper && !g.needs.upper ==> HasUpper(g.password))
    && (lower && !g.needs.lower ==> HasLower(g.password))
    && (special && !g.needs.special ==> '_' in g.password)
  }

  /** The loop invariant, for a call with the given flags and raised length `target`. */
  predicate Invariant(g: Gen, target: nat, number: bool, upper: bool, lower: bool, special: bool)
  {
    Counting(g.needs, number, upper, lower, special) && Room(g, target) && AllWordChars(g.password) && Covered(g, number, upper, lower, special)
  }

  lemma StartEstablishesInvariant(length: int, number: bool, upper: bool, lower: bool, special: bool)
    ensures Invariant(Start(length, number, upper, lower, special), TargetLength(length, number, upper, lower, special),
                      number, upper, lower, special)
  {
  }

  /** A word character that is not a digit nor a letter is the underscore: the only "special" character the filter lets through. */
  lemma SpecialIsUnderscore(c: char)
    requires IsWordChar(c) && !IsDigit(c) && !IsLower(c) && !IsUpper(c)
    ensures c == '_'
  {
  }

  /**
   * Every round keeps the invariant. In particular the byte that first meets a
   * still-required class is always appended: the room reserved for that class
   * makes `limit` true in that round.
   */
  lemma StepKeepsInvariant(g: Gen, target: nat, b: byte, number: bool, upper: bool, lower: bool, special: bool)
    requires Invariant(g, target, number, upper, lower, special)
    ensures Invariant(Step(g, target, b), target, number, upper, lower, special)
  {
    var c := Scrub(b);
    var n := if c != [] then Classify(g.needs, c[0]) else g.needs;
    StepFromClassified(g, target, b, c, n);
    if c != [] {
      ClassifyCounts(g.needs, c[0], number, upper, lower, special);
    }
    RoundKeepsInvariant(g, target, c, n, number, upper, lower, special);
  }

  /**
   * The invariant survives a round that appends the kept string `c` (empty, or
   * one word character) with bookkeeping `n`, as long as `n` differs from the
   * old bookkeeping only by clearing the class of `c`.
   */
  lemma RoundKeepsInvariant(g: Gen, target: nat, c: string, n: Needs, number: bool, upper: bool, lower: bool, special: bool)
    requires Invariant(g, target, number, upper, lower, special)
    requires |c| <= 1 && AllWordChars(c) && Counting(n, number, upper, lower, special)
    requires c == [] ==> n == g.needs
    requires n.required == g.needs.required || n.required == g.needs.required - 1
    requires n.number != g.needs.number ==> IsDigit(c[0]) && n.required < g.needs.required
    requires n.lower != g.needs.lower ==> IsLower(c[0]) && n.required < g.needs.required
    requires n.upper != g.needs.upper ==> IsUpper(c[0]) && n.required < g.needs.required
    requires n.special != g.needs.special ==> c[0] == '_' && n.required < g.needs.required
    ensures var limit := |g.password| < target - n.required;
            Invariant(Gen(if limit then g.password + c else g.password, n, limit), target, number, upper, lower, special)
  {
    var limit := |g.password| < target - n.required;
    var pw := if limit then g.password + c else g.password;
    AppendKeepsClasses(g.password, c);
    if n.required < g.needs.required {
      assert limit && c[0] in pw;
    }
  }

  /**
   * Classification clears at most one class, the first one the character
   * belongs to, and `requiredOffset` drops by one exactly when that class
   * was still required.
   */
  lemma ClassifyCounts(n: Needs, ch: char, number: bool, upper: bool, lower: bool, special: bool)
    requires Counting(n, number, upper, lower, special)
    ensures var m := Classify(n, ch);
            && Counting(m, number, upper, lower, special)
            && (m.required == n.required || m.required == n.required - 1)
            && (m.number != n.number ==> IsDigit(ch) && m.required < n.required)
            && (m.lower != n.lower ==> IsLower(ch) && !IsDigit(ch) && m.required < n.required)
            && (m.upper != n.upper ==> IsUpper(ch) && m.required < n.required)
            && (m.special != n.special ==> !IsDigit(ch) && !IsLower(ch) && !IsUpper(ch) && m.required < n.required)
            && (m == n || m.required < n.required)
  {
  }

  /** Appending keeps every class already present, and word characters stay word characters. */
  lemma AppendKeepsClasses(s: string, t: string)
    ensures AllWordChars(s) && AllWordChars(t) ==> AllWordChars(s + t)
    ensures HasDigit(s) ==> HasDigit(s + t)
    ensures HasUpper(s) ==> HasUpper(s + t)
    ensures HasLower(s) ==> HasLower(s + t)
    ensures '_' in s ==> '_' in s + t
  {
    assert forall x :: x in s + t <==> x in s || x in t;
  }

  /** A run that finishes returns a password that meets the promise, after drawing at most the whole stream. */
  lemma {:induction false} RunSatisfies(g: Gen, length: int, number: bool, upper: bool, lower: bool, special: bool, bytes: seq<byte>, i: nat)
    requires i <= |bytes|
    requires Invariant(g, TargetLength(length, number, upper, lower, special), number, upper, lower, special)
    ensures Run(g, TargetLength(length, number, upper, lower, special), bytes, i).Some? ==>
              var out := Run(g, TargetLength(length, number, upper, lower, special), bytes, i).value;
              Satisfies(out.password, length, number, upper, lower, special) && i <= out.drawn <= |bytes|
    decreases |bytes| - i
  {
    var target := TargetLength(length, number, upper, lower, special);
    if Running(g) && i < |bytes| {
      StepKeepsInvariant(g, target, bytes[i], number, upper, lower, special);
      RunSatisfies(Step(g, target, bytes[i]), length, number, upper, lower, special, bytes, i + 1);
    }
  }

  /**
   * The result of `random_password`, when the stream suffices: exactly
   * `max(length, number of requested classes)` characters, all from
   * `[0-9A-Za-z_]`, with one character of every requested class.
   */
  lemma GenerateSatisfies(length: int, number: bool, upper: bool, lower: bool, special: bool, bytes: seq<byte>)
    ensures Generate(length, number, upper, lower, special, bytes).Some? ==>
              var out := Generate(length, number, upper, lower, special, bytes).value;
              Satisfies(out.password, length, number, upper, lower, special) && out.drawn <= |bytes|
  {
    StartEstablishesInvariant(length, number, upper, lower, special);
    RunSatisfies(Start(length, number, upper, lower, special), length, number, upper, lower, special, bytes, 0);
  }

  /**
   * A finished run depends only on the bytes it drew: cut the stream after
   * them, or extend it with anything, and the result is the same.
   */
  lemma {:induction false} RunUsesOnlyDrawnBytes(g: Gen, target: int, bytes: seq<byte>, more: seq<byte>, i: nat)
    requires i <= |bytes| && Run(g, target, bytes, i).Some?
    ensures i <= Run(g, target, bytes, i).value.drawn <= |bytes|
    ensures Run(g, target, bytes + more, i) == Run(g, target, bytes, i)
    ensures Run(g, target, bytes[..Run(g, target, bytes, i).value.drawn], i) == Run(g, target, bytes, i)
    decreases |bytes| - i
  {
    if Running(g) {
      var g' := Step(g, target, bytes[i]);
      RunUsesOnlyDrawnBytes(g', target, bytes, more, i + 1);
      var n := Run(g', target, bytes, i + 1).value.drawn;
      assert (bytes + more)[i] == bytes[i] && bytes[..n][i] == bytes[i];
    }
  }

  lemma GenerateUsesOnlyDrawnBytes(length: int, number: bool, upper: bool, lower: bool, special: bool, bytes: seq<byte>, more: seq<byte>)
    requires Generate(length, number, upper, lower, special, bytes).Some?
    ensures Generate(length, number, upper, lower, special, bytes + more) == Generate(length, number, upper, lower, special, bytes)
    ensures var n := Generate(length, number, upper, lower, special, bytes).value.drawn;
            n <= |bytes| && Generate(length, number, upper, lower, special, bytes[..n]) == Generate(length, number, upper, lower, special, bytes)
  {
    RunUsesOnlyDrawnBytes(Start(length, number, upper, lower, special), TargetLength(length, number, upper, lower, special), bytes, more, 0);
  }

  /** With no class flag left, the buffer only ever grows by the word characters drawn, in order. */
  lemma {:induction false} RunWithoutClasses(g: Gen, target: int, bytes: seq<byte>, i: nat)
    requires i <= |bytes|
    requires g.needs == Needs(0, false, false, false, false)
    requires Run(g, target, bytes, i).Some?
    ensures Run(g, target, bytes, i).value.password <= g.password + Words(bytes[i..])
    decreases |bytes| - i
  {
    if Running(g) {
      StepWithoutClasses(g, target, bytes[i]);
      WordsFrom(bytes, i);
      if |g.password| < target {
        RunWithoutClasses(Gen(g.password + Scrub(bytes[i]), g.needs, true), target, bytes, i + 1);
        assert g.password + Scrub(bytes[i]) + Words(bytes[i + 1..]) == g.password + Words(bytes[i..]);
      } else {
        assert Run(g, target, bytes, i) == Some(Generated(g.password, i + 1));
        assert g.password <= g.password + Words(bytes[i..]);
      }
    }
  }

  /** Without classes to track, a round appends the scrubbed byte exactly when the buffer is still short. */
  lemma StepWithoutClasses(g: Gen, target: int, b: byte)
    requires g.needs == Needs(0, false, false, false, false)
    ensures var limit := |g.password| < target;
            Step(g, target, b) == Gen(if limit then g.password + Scrub(b) else g.password, g.needs, limit)
  {
    StepFromClassified(g, target, b, Scrub(b), g.needs);
  }

  lemma WordsFrom(bytes: seq<byte>, i: nat)
    requires i < |bytes|
    ensures Words(bytes[i..]) == Scrub(bytes[i]) + Words(bytes[i + 1..])
  {
    assert bytes[i..][1..] == bytes[i + 1..];
  }



  /**
   * With no class requested the password is the first `max(length, 0)` word
   * characters of the stream: no accepted byte is skipped.
   */
  lemma GenerateWithoutClasses(length: int, bytes: seq<byte>)
    requires Generate(length, false, false, false, false, bytes).Some?
    ensures var n := if length < 0 then 0 else length;
            n <= |Words(bytes)| && Generate(length, false, false, false, false, bytes).value.password == Words(bytes)[..n]
  {
    GenerateSatisfies(length, false, false, false, false, bytes);
    assert bytes[0..] == bytes;
    RunWithoutClasses(Start(length, false, false, false, false), TargetLength(length, false, false, false, false), bytes, 0);
  }

  /**
   * The word characters `w` about to be drawn let the run from `g` finish: each
   * class still required occurs in `w`, and `w` is long enough to fill the
   * buffer, unless it is already full up to the room kept for those classes.
   */
  ghost predicate Suffices(g: Gen, target: nat, w: string)
  {
    && (|g.password| + g.needs.required == target || target <= |g.password| + |w|)
    && (g.needs.number ==> HasDigit(w))
    && (g.needs.upper ==> HasUpper(w))
    && (g.needs.lower ==> HasLower(w))
    && (g.needs.special ==> '_' in w)
  }

  /** A round consumes the first drawn byte and leaves the rest of the words sufficient. */
  lemma StepKeepsSufficient(g: Gen, target: nat, b: byte, w: string, number: bool, upper: bool, lower: bool, special: bool)
    requires Invariant(g, target, number, upper, lower, special)
    requires Suffices(g, target, Scrub(b) + w)
    ensures Suffices(Step(g, target, b), target, w)
  {
    var c := Scrub(b);
    var n := if c != [] then Classify(g.needs, c[0]) else g.needs;
    StepFromClassified(g, target, b, c, n);
    assert forall x :: x in c + w <==> x in c || x in w;
  }

  lemma WordsSlice(bytes: seq<byte>, i: nat, j: nat)
    requires i < j <= |bytes|
    ensures Words(bytes[i..j]) == Scrub(bytes[i]) + Words(bytes[i + 1..j])
  {
    assert bytes[i..j][0] == bytes[i] && bytes[i..j][1..] == bytes[i + 1..j];
  }

  /**
   * A run finishes once the bytes before position `j` hold enough word
   * characters, and one more byte is there to draw: it stops by position `j + 1`.
   */
  lemma {:induction false} RunFinishes(g: Gen, target: nat, bytes: seq<byte>, i: nat, j: nat,
                                       number: bool, upper: bool, lower: bool, special: bool)
    requires i <= j < |bytes|
    requires Invariant(g, target, number, upper, lower, special)
    requires Suffices(g, target, Words(bytes[i..j]))
    ensures Run(g, target, bytes, i).Some? && Run(g, target, bytes, i).value.drawn <= j + 1
    decreases j - i
  {
    if Running(g) {
      var g' := Step(g, target, bytes[i]);
      StepKeepsInvariant(g, target, bytes[i], number, upper, lower, special);
      if i == j {
        assert Words(bytes[i..j]) == [];
        assert !Running(g');
      } else {
        WordsSlice(bytes, i, j);
        StepKeepsSufficient(g, target, bytes[i], Words(bytes[i + 1..j]), number, upper, lower, special);
        RunFinishes(g', target, bytes, i + 1, j, number, upper, lower, special);
      }
    }
  }

  /**
   * `random_password` returns once the stream has yielded the raised length in
   * word characters, including one of each requested class: the next byte,
   * which only refreshes `limit`, is the last one drawn.
   */
  lemma GenerateFinishes(length: int, number: bool, upper: bool, lower: bool, special: bool, bytes: seq<byte>, j: nat)
    requires j < |bytes|
    requires TargetLength(length, number, upper, lower, special) <= |Words(bytes[..j])|
    requires number ==> HasDigit(Words(bytes[..j]))
    requires upper ==> HasUpper(Words(bytes[..j]))
    requires lower ==> HasLower(Words(bytes[..j]))
    requires special ==> '_' in Words(bytes[..j])
    ensures Generate(length, number, upper, lower, special, bytes).Some?
    ensures Generate(length, number, upper, lower, special, bytes).value.drawn <= j + 1
    ensures Satisfies(Generate(length, number, upper, lower, special, bytes).value.password, length, number, upper, lower, special)
  {
    assert bytes[0..j] == bytes[..j];
    StartEstablishesInvariant(length, number, upper, lower, special);
    RunFinishes(Start(length, number, upper, lower, special), TargetLength(length, number, upper, lower, special),
                bytes, 0, j, number, upper, lower, special);
    GenerateSatisfies(length, number, upper, lower, special, bytes);
  }

  /**
   * All four classes and `length` 3: the length is raised to 4, and the fifth
   * byte is drawn after the buffer is full, only to refresh `limit`.
   */
  lemma AllClassesExample()
    ensures Generate(3, true, true, true, true, [97, 49, 66, 95, 120]) == Some(Generated("a1B_", 5))
  {
    var bytes: seq<byte> := [97, 49, 66, 95, 120];
    var g0 := Start(3, true, true, true, true);
    assert g0 == Gen("", Needs(4, true, true, true, true), false);
    var g1 := Gen("a", Needs(3, true, true, false, true), true);
    var g2 := Gen("a1", Needs(2, false, true, false, true), true);
    var g3 := Gen("a1B", Needs(1, false, false, false, true), true);
    var g4 := Gen("a1B_", Needs(0, false, false, false, false), true);
    var g5 := Gen("a1B_", Needs(0, false, false, false, false), false);
    assert Step(g0, 4, bytes[0]) == g1;
    assert Step(g1, 4, bytes[1]) == g2;
    assert Step(g2, 4, bytes[2]) == g3;
    assert Step(g3, 4, bytes[3]) == g4;
    assert Step(g4, 4, bytes[4]) == g5;
    assert Run(g5, 4, bytes, 5) == Some(Generated("a1B_", 5));
  }

  /**
   * The `if c =~ /[[:digit:]]/ ... elsif ... else` chain of the loop body on
   * the kept character `ch`: the first class `ch` belongs to (digits, then
   * `a..z`, then `A..Z`, anything else being special) is cleared, and
   * `requiredOffset` drops when that class was still required.
   */
  method Tally(ch: char, requiredOffset: int, number: bool, upper: bool, lower: bool, special: bool)
    returns (requiredOffset': int, number': bool, upper': bool, lower': bool, special': bool)
    ensures Needs(requiredOffset', number', upper', lower', special') == Classify(Needs(requiredOffset, number, upper, lower, special), ch)
  {
    requiredOffset', number', upper', lower', special' := requiredOffset, number, upper, lower, special;
    if IsDigit(ch) {
      if number { requiredOffset' := requiredOffset' - 1; }
      number' := false;
    } else if IsLower(ch) {
      if lower { requiredOffset' := requiredOffset' - 1; }
      lower' := false;
    } else if IsUpper(ch) {
      if upper { requiredOffset' := requiredOffset' - 1; }
      upper' := false;
    } else {
      if special { requiredOffset' := requiredOffset' - 1; }
      special' := false;
    }
  }

  /**
   * `random_password(length, number, upper, lower, special)` on the stream
   * `bytes`. The loop is the source's: the guard reads the `limit` computed in
   * the previous round, so one more byte is drawn after the buffer fills.
   * Ruby's loop has no bound; here it also stops when the stream runs out,
   * and then the outcome is `None`.
   */
  method RandomPassword(length: int, number: bool, upper: bool, lower: bool, special: bool, bytes: seq<byte>)
    returns (outcome: Option<Generated>)
    ensures outcome == Generate(length, number, upper, lower, special, bytes)
    ensures outcome.Some? ==> Satisfies(outcome.value.password, length, number, upper, lower, special)
    ensures outcome.Some? ==> outcome.value.drawn <= |bytes|
    ensures length <= 0 && !number && !upper && !lower && !special ==> outcome == Some(Generated("", 0))
  {
    var password := "";
    var requiredOffset := 0;
    if number { requiredOffset := requiredOffset + 1; }
    if upper { requiredOffset := requiredOffset + 1; }
    if lower { requiredOffset := requiredOffset + 1; }
    if special { requiredOffset := requiredOffset + 1; }
    var target := length;
    if target < requiredOffset { target := requiredOffset; }
    var limit := |password| < target - requiredOffset;
    var needDigit, needUpper, needLower, needSpecial := number, upper, lower, special;
    var i := 0;
    ghost var trace := [Gen(password, Needs(requiredOffset, needDigit, needUpper, needLower, needSpecial), limit)];
    assert trace[0] == Start(length, number, upper, lower, special) && target == TargetLength(length, number, upper, lower, special);
    while (limit || requiredOffset > 0) && i < |bytes|
      invariant 0 <= i <= |bytes|
      invariant |trace| == i + 1 && trace[0] == Start(length, number, upper, lower, special)
      invariant trace[i] == Gen(password, Needs(requiredOffset, needDigit, needUpper, needLower, needSpecial), limit)
      invariant IsTrace(trace, target, bytes)
      decreases |bytes| - i
    {
      var c := Scrub(bytes[i]);
      if c != "" {
        requiredOffset, needDigit, needUpper, needLower, needSpecial := Tally(c[0], requiredOffset, needDigit, needUpper, needLower, needSpecial);
      }
      StepFromClassified(trace[i], target, bytes[i], c, Needs(requiredOffset, needDigit, needUpper, needLower, needSpecial));
      limit := |password| < target - requiredOffset;
      if limit {
        password := password + c;
      }
      AdvanceTrace(trace, target, bytes, i, Gen(password, Needs(requiredOffset, needDigit, needUpper, needLower, needSpecial), limit));
      trace := trace + [Gen(password, Needs(requiredOffset, needDigit, needUpper, needLower, needSpecial), limit)];
      i := i + 1;
    }
    TraceRun(trace, target, bytes, i);
    if limit || requiredOffset > 0 {
      return None;
    }
    outcome := Some(Generated(password, i));
    GenerateSatisfies(length, number, upper, lower, special, bytes);
  }
}

/** src/day17.rs: the three-register computer, one instruction at a time. */
module Day17 {
  import opened Common

  /**
   * `Computer`. Registers are modelled as non-negative integers, the case in which Rust's
   * truncating `/` and Dafny's Euclidean `/` agree.
   */
  datatype Computer = Computer(program: seq<Byte>, ar: nat, br: nat, cr: nat, ip: nat, output: seq<nat>)

  /** `Computer::new`: `ip` at 0 and no output yet. */
  function New(program: seq<Byte>, ar: nat, br: nat, cr: nat): (c: Computer)
    ensures c.ip == 0 && c.output == []
    ensures c.program == program && c.ar == ar && c.br == br && c.cr == cr
  {
    Computer(program, ar, br, cr, 0, [])
  }

  /** `is_done`: no full instruction (opcode and operand) is left at `ip`. An empty program underflows in Rust. */
  predicate IsDone(c: Computer)
    requires |c.program| >= 1
    ensures !IsDone(c) <==> c.ip < |c.program| && c.ip + 1 < |c.program|
  {
    c.ip >= |c.program| - 1
  }

  /** `combo`: literal operands 0..3, then the three registers; 7 and above panic (`None`). */
  function Combo(c: Computer, op: Byte): (r: Option<nat>)
    ensures r.Some? <==> op <= 6
    ensures op <= 3 ==> r == Some(op)
    ensures op == 4 ==> r == Some(c.ar)
    ensures op == 5 ==> r == Some(c.br)
    ensures op == 6 ==> r == Some(c.cr)
  {
    match op
    case 0 => Some(0)
    case 1 => Some(1)
    case 2 => Some(2)
    case 3 => Some(3)
    case 4 => Some(c.ar)
    case 5 => Some(c.br)
    case 6 => Some(c.cr)
    case _ => None
  }

  /** `2^k`, the value of `1 << k`. */
  function Pow2(k: nat): (r: nat)
    ensures r >= 1
  {
    if k == 0 then 1 else 2 * Pow2(k - 1)
  }

  /** `a / 2^k`: the division that `adv`, `bdv` and `cdv` perform. */
  function DivPow2(a: nat, k: nat): nat
  {
    QuotientShrinks(a, Pow2(k));
    a / Pow2(k)
  }

  /** Bitwise exclusive or of two non-negative integers (`^`). */
  function Xor(a: nat, b: nat): nat
    decreases a + b
  {
    if a == 0 && b == 0 then 0
    else 2 * Xor(a / 2, b / 2) + (a % 2 + b % 2) % 2
  }

  /** The lowest bit of `Xor(a, b)` and the exclusive or of the remaining bits. */
  lemma XorHalves(a: nat, b: nat)
    ensures Xor(a, b) / 2 == Xor(a / 2, b / 2) && Xor(a, b) % 2 == (a % 2 + b % 2) % 2
  {
    if a != 0 || b != 0 {
      DivModUnique(Xor(a, b), 2, Xor(a / 2, b / 2), (a % 2 + b % 2) % 2);
    }
  }

  /** Exclusive or with the same value undoes itself. */
  lemma {:induction false} XorInverse(a: nat, b: nat)
    ensures Xor(Xor(a, b), b) == a
    decreases a + b
  {
    var x := Xor(a, b);
    if b == 0 {
      XorIdentityCommute(a, 0);
      XorIdentityCommute(x, 0);
    } else {
      XorInverse(a / 2, b / 2);
      XorHalves(a, b);
      var p, q := a % 2, b % 2;
      assert ((p + q) % 2 + q) % 2 == p by {
        assert p == 0 || p == 1;
        assert q == 0 || q == 1;
      }
      assert Xor(x, b) == 2 * Xor(x / 2, b / 2) + (x % 2 + b % 2) % 2;
      assert Xor(x, b) == 2 * (a / 2) + a % 2;
    }
  }

  /** Zero is the identity of exclusive or, and it commutes. */
  lemma {:induction false} XorIdentityCommute(a: nat, b: nat)
    ensures Xor(a, 0) == a && Xor(a, b) == Xor(b, a)
    decreases a + b
  {
    if a != 0 || b != 0 {
      XorIdentityCommute(a / 2, b / 2);
    }
  }

  /**
   * `Computer::step`: execute the instruction at `ip` and advance `ip` by two (or jump, for
   * opcode 3 with a non-zero A register). A done computer is returned unchanged. `None` stands for
   * a panic: an invalid combo operand, or an opcode above 7 (`todo!()`).
   */
  function Step(c: Computer): (r: Option<Computer>)
    requires |c.program| >= 1
    ensures IsDone(c) ==> r == Some(c)
    ensures r.Some? ==> r.value.program == c.program
    ensures r.Some? ==> |c.output| <= |r.value.output| <= |c.output| + 1 && r.value.output[..|c.output|] == c.output
    ensures r.Some? && !IsDone(c) && |r.value.output| > |c.output| ==> c.program[c.ip] == 5
    ensures r.Some? && !IsDone(c) ==>
      r.value.ip == if c.program[c.ip] == 3 && c.ar != 0 then c.program[c.ip + 1] as nat else c.ip + 2
    ensures r.None? <==> !IsDone(c) && (c.program[c.ip] > 7 || (c.program[c.ip] in {0, 2, 5, 6, 7} && c.program[c.ip + 1] > 6))
  {
    if c.ip >= |c.program| - 1 then Some(c)
    else
      var inst := c.program[c.ip];
      var op := c.program[c.ip + 1];
      var res := c.(ip := c.ip + 2);
      match inst
      case 0 => (match Combo(c, op) case Some(k) => Some(res.(ar := DivPow2(c.ar, k))) case None => None)
      case 1 => Some(res.(br := Xor(op, c.br)))
      case 2 => (match Combo(c, op) case Some(k) => Some(res.(br := k % 8)) case None => None)
      case 3 => Some(if c.ar != 0 then res.(ip := op) else res)
      case 4 => Some(res.(br := Xor(c.br, c.cr)))
      case 5 => (match Combo(c, op) case Some(k) => Some(res.(output := c.output + [k % 8])) case None => None)
      case 6 => (match Combo(c, op) case Some(k) => Some(res.(br := DivPow2(c.ar, k))) case None => None)
      case 7 => (match Combo(c, op) case Some(k) => Some(res.(cr := DivPow2(c.ar, k))) case None => None)
      case _ => None
  }

  /** The registers an instruction writes: each opcode changes its own register and no other. */
  lemma StepWrites(c: Computer)
    requires |c.program| >= 1 && !IsDone(c) && Step(c).Some?
    ensures var inst, op, c' := c.program[c.ip], c.program[c.ip + 1], Step(c).value;
      && (inst == 0 ==> c'.ar == c.ar / Pow2(Combo(c, op).value))
      && (inst != 0 ==> c'.ar == c.ar)
      && (inst !in {1, 2, 4, 6} ==> c'.br == c.br)
      && (inst == 1 ==> c'.br == Xor(op, c.br))
      && (inst == 2 ==> c'.br == Combo(c, op).value % 8)
      && (inst == 4 ==> c'.br == Xor(c.br, c.cr))
      && (inst == 6 ==> c'.br == c.ar / Pow2(Combo(c, op).value))
      && (inst == 7 ==> c'.cr == c.ar / Pow2(Combo(c, op).value))
      && (inst != 7 ==> c'.cr == c.cr)
      && (inst == 5 ==> c'.output == c.output + [Combo(c, op).value % 8])
      && (inst != 5 ==> c'.output == c.output)
  {
  }

  /**
   * The loop of the tests: step until done. `fuel` bounds the number of steps; `None` means a panic
   * or that the fuel ran out.
   */
  function Run(c: Computer, fuel: nat): (r: Option<Computer>)
    requires |c.program| >= 1
    ensures r.Some? ==> r.value.program == c.program && IsDone(r.value)
    ensures r.Some? ==> |c.output| <= |r.value.output| && r.value.output[..|c.output|] == c.output
    decreases fuel
  {
    if IsDone(c) then Some(c)
    else if fuel == 0 then None
    else match Step(c)
      case None => None
      case Some(c') => Run(c', fuel - 1)
  }

  /** Once a run finishes, more fuel changes nothing. */
  lemma {:induction false} RunMoreFuel(c: Computer, fuel: nat, more: nat)
    requires |c.program| >= 1 && Run(c, fuel).Some? && fuel <= more
    ensures Run(c, more) == Run(c, fuel)
    decreases fuel
  {
    if !IsDone(c) {
      RunMoreFuel(Step(c).value, fuel - 1, more - 1);
    }
  }

  /** The examples that run a single instruction. */
  lemma SetBFromCExample()
    ensures Step(New([2, 6], 0, 0, 9)).value.br == 1
  {
  }

  lemma XorLiteralExample()
    ensures Run(New([1, 7], 0, 29, 0), 1).value.br == 26
  {
    assert Xor(0, 1) == 1;
    assert Xor(0, 3) == 3;
    assert Xor(1, 7) == 6;
    assert Xor(3, 14) == 13;
    assert Xor(7, 29) == 26;
  }

  lemma XorRegistersExample()
    ensures Run(New([4, 0], 0, 2024, 43690), 1).value.br == 44354
  {
    assert Xor(0, 1) == 1;
    assert Xor(0, 2) == 2;
    assert Xor(0, 5) == 5;
    assert Xor(0, 10) == 10;
    assert Xor(0, 21) == 21;
    assert Xor(1, 42) == 43;
    assert Xor(3, 85) == 86;
    assert Xor(7, 170) == 173;
    assert Xor(15, 341) == 346;
    assert Xor(31, 682) == 693;
    assert Xor(63, 1365) == 1386;
    assert Xor(126, 2730) == 2772;
    assert Xor(253, 5461) == 5544;
    assert Xor(506, 10922) == 11088;
    assert Xor(1012, 21845) == 22177;
    assert Xor(2024, 43690) == 44354;
  }

  /** `5,0,5,1,5,4` with A = 10 outputs 0, 1, 2. */
  lemma OutputExample()
    ensures Run(New([5, 0, 5, 1, 5, 4], 10, 0, 0), 3).value.output == [0, 1, 2]
  {
    var p := [5, 0, 5, 1, 5, 4];
    var c1 := Computer(p, 10, 0, 0, 2, [0]);
    var c2 := Computer(p, 10, 0, 0, 4, [0, 1]);
    var c3 := Computer(p, 10, 0, 0, 6, [0, 1, 2]);
    assert Step(New(p, 10, 0, 0)) == Some(c1);
    assert [0] + [1 % 8] == [0, 1] && [0, 1] + [10 % 8] == [0, 1, 2];
    assert Step(c1) == Some(c2);
    assert Step(c2) == Some(c3);
    assert Run(c2, 1) == Some(c3);
    assert Run(c1, 2) == Some(c3);
  }

  /** The outputs of the loop `adv k; out A; jnz 0`: A is divided by `d` and printed modulo 8 until it reaches 0. */
  function Shifts(ar: nat, d: nat): (r: seq<nat>)
    requires d >= 2
    ensures |r| >= 1
    decreases ar
  {
    var q := ar / d;
    QuotientShrinks(ar, d);
    if q == 0 then [0] else [q % 8] + Shifts(q, d)
  }

  /** The program `0,k,5,4,3,0` for a literal shift `k` in 1..3. */
  function ShiftProgram(k: Byte): seq<Byte>
  {
    [0, k, 5, 4, 3, 0]
  }

  /** One turn of the loop: three steps divide A by `2^k`, print the new A modulo 8, and jump back while A is non-zero. */
  lemma ShiftTurn(k: Byte, ar: nat, br: nat, cr: nat, out: seq<nat>, fuel: nat)
    requires 1 <= k <= 3
    ensures var c := Computer(ShiftProgram(k), ar, br, cr, 0, out);
      var a' := ar / Pow2(k);
      Run(c, fuel + 3) == Run(Computer(ShiftProgram(k), a', br, cr, if a' != 0 then 0 else 6, out + [a' % 8]), fuel)
  {
    var p := ShiftProgram(k);
    var a' := ar / Pow2(k);
    var c0 := Computer(p, ar, br, cr, 0, out);
    var c1 := Computer(p, a', br, cr, 2, out);
    var c2 := Computer(p, a', br, cr, 4, out + [a' % 8]);
    var c3 := Computer(p, a', br, cr, if a' != 0 then 0 else 6, out + [a' % 8]);
    assert Combo(c0, k) == Some(k as nat);
    assert Step(c0) == Some(c1);
    assert Step(c1) == Some(c2);
    assert Step(c2) == Some(c3);
    assert Run(c0, fuel + 3) == Run(c1, fuel + 2) == Run(c2, fuel + 1) == Run(c3, fuel);
  }

  /** The whole loop: A ends at 0 and the printed values are `Shifts`. */
  lemma {:induction false} ShiftLoop(k: Byte, ar: nat, br: nat, cr: nat, out: seq<nat>)
    requires 1 <= k <= 3
    ensures Run(Computer(ShiftProgram(k), ar, br, cr, 0, out), 3 * |Shifts(ar, Pow2(k))|)
      == Some(Computer(ShiftProgram(k), 0, br, cr, 6, out + Shifts(ar, Pow2(k))))
    decreases ar
  {
    QuotientShrinks(ar, Pow2(k));
    var a': nat := ar / Pow2(k);
    if a' == 0 {
      ShiftLast(k, ar, br, cr, out);
    } else {
      ShiftLoop(k, a', br, cr, out + [a' % 8]);
      ShiftsCons(ar, Pow2(k));
      var all, rest := Shifts(ar, Pow2(k)), Shifts(a', Pow2(k));
      assert 3 * |all| - 3 == 3 * |rest|;
      assert out + [a' % 8] + rest == out + all;
      TurnThen(k, ar, br, cr, out, all, 3 * |all|);
    }
  }

  /** The last turn: A drops to 0, 0 is printed and the program halts. */
  lemma ShiftLast(k: Byte, ar: nat, br: nat, cr: nat, out: seq<nat>)
    requires 1 <= k <= 3 && ar / Pow2(k) == 0
    ensures Run(Computer(ShiftProgram(k), ar, br, cr, 0, out), 3 * |Shifts(ar, Pow2(k))|)
      == Some(Computer(ShiftProgram(k), 0, br, cr, 6, out + Shifts(ar, Pow2(k))))
  {
    assert Shifts(ar, Pow2(k)) == [0];
    ShiftTurn(k, ar, br, cr, out, 0);
  }

  /** Unfolding `Shifts` once, when the quotient is not 0. */
  lemma ShiftsCons(ar: nat, d: nat)
    requires d >= 2 && ar / d != 0
    ensures Shifts(ar, d) == [(ar / d) % 8] + Shifts(ar / d, d)
  {
  }

  /** A turn leaving A non-zero and printing the first of `all`, then a run that halts after printing the rest. */
  lemma TurnThen(k: Byte, ar: nat, br: nat, cr: nat, out: seq<nat>, all: seq<nat>, fuel: nat)
    requires 1 <= k <= 3 && ar / Pow2(k) != 0 && fuel >= 3 && |all| >= 1 && all[0] == ar / Pow2(k) % 8
    requires var a' := ar / Pow2(k);
      Run(Computer(ShiftProgram(k), a', br, cr, 0, out + [a' % 8]), fuel - 3)
      == Some(Computer(ShiftProgram(k), 0, br, cr, 6, out + all))
    ensures Run(Computer(ShiftProgram(k), ar, br, cr, 0, out), fuel)
      == Some(Computer(ShiftProgram(k), 0, br, cr, 6, out + all))
  {
    ShiftTurn(k, ar, br, cr, out, fuel - 3);
  }

  /** A fresh computer running `0,k,5,4,3,0` halts with A = 0, having printed `Shifts`. */
  lemma ShiftRun(k: Byte, ar: nat)
    requires 1 <= k <= 3
    ensures Run(New(ShiftProgram(k), ar, 0, 0), 3 * |Shifts(ar, Pow2(k))|)
      == Some(Computer(ShiftProgram(k), 0, 0, 0, 6, Shifts(ar, Pow2(k))))
  {
    ShiftLoop(k, ar, 0, 0, []);
    assert [] + Shifts(ar, Pow2(k)) == Shifts(ar, Pow2(k));
  }

  /** `0,1,5,4,3,0` with A = 729 prints 4,6,3,5,6,3,5,2,1,0. */
  lemma HalvingExample()
    ensures Run(New([0, 1, 5, 4, 3, 0], 729, 0, 0), 30) == Some(Computer([0, 1, 5, 4, 3, 0], 0, 0, 0, 6, [4, 6, 3, 5, 6, 3, 5, 2, 1, 0]))
  {
    HalvingOutputs729();
    ShiftRun(1, 729);
  }

  lemma HalvingOutputs729()
    ensures Shifts(729, Pow2(1)) == [4, 6, 3, 5, 6, 3, 5, 2, 1, 0]
  {
    assert Pow2(1) == 2;
    HalvingOutputs182();
    ShiftsCons(364, 2);
    ShiftsCons(729, 2);
  }

  lemma HalvingOutputs182()
    ensures Shifts(182, 2) == [3, 5, 6, 3, 5, 2, 1, 0]
  {
    HalvingOutputs45();
    ShiftsCons(91, 2);
    ShiftsCons(182, 2);
  }

  /** The same program with A = 2024 prints 4,2,5,6,7,7,7,7,3,1,0 and leaves A at 0. */
  lemma HalvingExample2024()
    ensures Run(New([0, 1, 5, 4, 3, 0], 2024, 0, 0), 33) == Some(Computer([0, 1, 5, 4, 3, 0], 0, 0, 0, 6, [4, 2, 5, 6, 7, 7, 7, 7, 3, 1, 0]))
  {
    HalvingOutputs2024();
    ShiftRun(1, 2024);
  }

  lemma HalvingOutputs45()
    ensures Shifts(45, 2) == [6, 3, 5, 2, 1, 0]
  {
    assert Shifts(1, 2) == [0];
    ShiftsCons(2, 2);
    ShiftsCons(5, 2);
    ShiftsCons(11, 2);
    ShiftsCons(22, 2);
    ShiftsCons(45, 2);
  }

  lemma HalvingOutputs2024()
    ensures Shifts(2024, Pow2(1)) == [4, 2, 5, 6, 7, 7, 7, 7, 3, 1, 0]
  {
    assert Pow2(1) == 2;
    HalvingOutputs506();
    ShiftsCons(1012, 2);
    ShiftsCons(2024, 2);
  }

  lemma HalvingOutputs506()
    ensures Shifts(506, 2) == [5, 6, 7, 7, 7, 7, 3, 1, 0]
  {
    HalvingOutputs253();
    ShiftsCons(506, 2);
  }

  lemma HalvingOutputs253()
    ensures Shifts(253, 2) == [6, 7, 7, 7, 7, 3, 1, 0]
  {
    HalvingOutputs31();
    ShiftsCons(63, 2);
    ShiftsCons(126, 2);
    ShiftsCons(253, 2);
  }

  lemma HalvingOutputs31()
    ensures Shifts(31, 2) == [7, 7, 3, 1, 0]
  {
    assert Shifts(1, 2) == [0];
    ShiftsCons(3, 2);
    ShiftsCons(7, 2);
    ShiftsCons(15, 2);
    ShiftsCons(31, 2);
  }

  /** `0,3,5,4,3,0` with A = 117440 prints its own program. */
  lemma QuineExample()
    ensures Run(New([0, 3, 5, 4, 3, 0], 117440, 0, 0), 18) == Some(Computer([0, 3, 5, 4, 3, 0], 0, 0, 0, 6, [0, 3, 5, 4, 3, 0]))
  {
    QuineOutputs();
    ShiftRun(3, 117440);
  }

  lemma QuineOutputs()
    ensures Shifts(117440, Pow2(3)) == [0, 3, 5, 4, 3, 0]
  {
    assert Pow2(3) == 8;
    assert Shifts(3, 8) == [0];
    ShiftsCons(28, 8);
    ShiftsCons(229, 8);
    ShiftsCons(1835, 8);
    ShiftsCons(14680, 8);
    ShiftsCons(117440, 8);
  }
}

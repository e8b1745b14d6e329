/**
 * The small part of the C library that the server and its drivers use on
 * text: NUL-terminated strings, `strncmp`-style prefix tests, `snprintf` with
 * `%d` conversions, `sscanf` with `%d` conversions and `atoi`.
 *
 * Characters stand for bytes. Integers are unbounded: values outside the
 * 32-bit range, which would overflow `%d` or `atoi` in C, are not modelled.
 */
module CLib {

  datatype Option<T> = None | Some(value: T)

  /** The characters C's `isspace` accepts in the "C" locale. */
  predicate IsSpace(c: char)
  {
    c == ' ' || c == '\t' || c == '\n' || c == '\r' || c == '\U{B}' || c == '\U{C}'
  }

  predicate IsDigit(c: char)
  {
    '0' <= c <= '9'
  }

  /** The value of a decimal digit character. */
  function DigitValue(c: char): int
  {
    (c as int) - ('0' as int)
  }

  /** The character of a decimal digit. */
  function DigitChar(d: nat): (c: char)
    requires d < 10
    ensures IsDigit(c) && DigitValue(c) == d
  {
    (('0' as int) + d) as char
  }

  /** The C string stored at the start of `s`: everything before the first NUL. */
  function CString(s: seq<char>): (r: seq<char>)
    ensures |r| <= |s| && r == s[..|r|]
    ensures '\0' !in r
    ensures |r| < |s| ==> s[|r|] == '\0'
  {
    if s == [] || s[0] == '\0' then [] else [s[0]] + CString(s[1..])
  }

  /** `strncmp(s, p, |p|) == 0` for a NUL-free `p` and a C string `s`. */
  predicate StartsWith(s: seq<char>, p: seq<char>)
  {
    |p| <= |s| && s[..|p|] == p
  }

  /** Concatenation regroups freely; stated once so that callers need not unfold their operands. */
  lemma AppendAssociative<T>(a: seq<T>, b: seq<T>, c: seq<T>)
    ensures (a + b) + c == a + (b + c)
  {
  }

  /** The text from offset `k` on; empty once `k` is past the end. */
  function Drop(s: seq<char>, k: nat): (r: seq<char>)
    ensures k <= |s| ==> r == s[k..]
    ensures k > |s| ==> r == []
  {
    if k <= |s| then s[k..] else []
  }

  // ---------------------------------------------------------------------------
  // Decimal formatting, as `%d` in `snprintf` (ISO C11 7.21.6.1)

  /** The digits of a natural number, most significant first, no leading zero. */
  function NatDigits(n: nat): (r: string)
    ensures |r| > 0
    decreases n
  {
    if n < 10 then [DigitChar(n)] else NatDigits(n / 10) + [DigitChar(n % 10)]
  }

  /** `%d`: an optional minus sign followed by the digits of the magnitude. */
  function Dec(n: int): (r: string)
    ensures r != [] && '\0' !in r
    ensures r[0] == '-' <==> n < 0
  {
    var m: nat := if n < 0 then -n else n;
    NatDigitsAreDigits(m);
    assert forall k | 0 <= k < |NatDigits(m)| :: NatDigits(m)[k] != '\0' && NatDigits(m)[k] != '-';
    if n < 0 then "-" + NatDigits(m) else NatDigits(m)
  }

  /** After the optional minus sign, `%d` prints only digits. */
  lemma DecDigits(n: int)
    ensures forall k | (if n < 0 then 1 else 0) <= k < |Dec(n)| :: IsDigit(Dec(n)[k])
  {
    NatDigitsAreDigits(if n < 0 then -n else n);
  }

  // ---------------------------------------------------------------------------
  // Decimal scanning, as `%d` in `sscanf` (ISO C11 7.21.6.2) and as `atoi`
  // (ISO C11 7.22.1.2, defined through `strtol` with base 10, 7.22.1.4)

  function SkipSpace(s: seq<char>): (r: seq<char>)
    ensures |r| <= |s| && r == s[|s| - |r|..]
    ensures r != [] ==> !IsSpace(r[0])
  {
    if s != [] && IsSpace(s[0]) then SkipSpace(s[1..]) else s
  }

  /** The number of decimal digits at the start of `s`. */
  function DigitRun(s: seq<char>): (n: nat)
    ensures n <= |s|
    ensures n < |s| ==> !IsDigit(s[n])
  {
    if s != [] && IsDigit(s[0]) then 1 + DigitRun(s[1..]) else 0
  }

  /** The value of a run of digits, read most significant first. */
  function DigitsValue(ds: seq<char>): int
  {
    if ds == [] then 0 else 10 * DigitsValue(ds[..|ds| - 1]) + DigitValue(ds[|ds| - 1])
  }

  /** The run of digits at the start of `u`, read as a number, and the text after it; none without a digit. */
  function ScanDigits(u: seq<char>): (r: Option<(int, seq<char>)>)
    ensures r.None? <==> u == [] || !IsDigit(u[0])
  {
    var n := DigitRun(u);
    if n == 0 then None else Some((DigitsValue(u[..n]), u[n..]))
  }

  /**
   * One `%d` conversion: skip white space, take an optional sign and the
   * longest run of digits. At least one digit is needed, otherwise the
   * conversion fails. Returns the value and the text left over.
   */
  function ScanInt(s: seq<char>): (r: Option<(int, seq<char>)>)
  {
    var t := SkipSpace(s);
    if t != [] && (t[0] == '-' || t[0] == '+') then
      var u := t[1..];
      if t[0] == '+' then ScanDigits(u)
      else match ScanDigits(u)
        case None => None
        case Some((magnitude, rest)) => Some((-magnitude, rest))
    else ScanDigits(t)
  }

  /** A `%d` scan fails exactly when no digit follows the white space and the optional sign. */
  lemma ScanIntFails(s: seq<char>)
    ensures var t := SkipSpace(s);
      var u := if t != [] && (t[0] == '-' || t[0] == '+') then t[1..] else t;
      ScanInt(s).None? <==> u == [] || !IsDigit(u[0])
  {
  }

  /** `atoi`: the value of the leading `%d`-shaped number, 0 when there is none. */
  function Atoi(s: seq<char>): (v: int)
    ensures var t := SkipSpace(s);
      t == [] || !(IsDigit(t[0]) || t[0] == '-' || t[0] == '+') ==> v == 0
  {
    match ScanInt(s)
    case None => 0
    case Some((v, _)) => v
  }

  // ---------------------------------------------------------------------------
  // Formats with `%d` conversions, shared by `snprintf` and `sscanf`

  /** A format string read as directives: `%d` is a conversion, any other character a literal. */
  datatype Piece = Lit(c: char) | Conv

  function Pieces(f: string): (ps: seq<Piece>)
    decreases |f|
  {
    if f == [] then []
    else if |f| >= 2 && f[0] == '%' && f[1] == 'd' then [Conv] + Pieces(f[2..])
    else [Lit(f[0])] + Pieces(f[1..])
  }

  /** The number of `%d` conversions in a format. */
  function Convs(ps: seq<Piece>): nat
  {
    if ps == [] then 0 else (if ps[0].Conv? then 1 else 0) + Convs(ps[1..])
  }

  /**
   * `snprintf` over directives: literals are copied, each `%d` prints the next
   * argument. A conversion left without an argument (undefined in C; no call
   * in this program has one) prints nothing.
   */
  function Render(ps: seq<Piece>, args: seq<int>): (r: string)
  {
    if ps == [] then []
    else match ps[0]
      case Lit(c) => [c] + Render(ps[1..], args)
      case Conv =>
        if args == [] then Render(ps[1..], args) else Dec(args[0]) + Render(ps[1..], args[1..])
  }

  function Printf(f: string, args: seq<int>): (r: string)
  {
    Render(Pieces(f), args)
  }

  /** `snprintf` with a NUL-free format prints no NUL, so `strlen` counts all of it. */
  lemma PrintfNulFree(f: string, args: seq<int>)
    requires '\0' !in f
    ensures '\0' !in Printf(f, args)
  {
    PiecesNulFree(f);
    RenderNulFree(Pieces(f), args);
  }

  /** Helper for `PrintfNulFree`: a NUL-free format has no NUL literal. */
  lemma {:induction false} PiecesNulFree(f: string)
    requires '\0' !in f
    ensures Lit('\0') !in Pieces(f)
    decreases |f|
  {
    if f != [] {
      if |f| >= 2 && f[0] == '%' && f[1] == 'd' {
        assert forall c | c in f[2..] :: c in f;
        PiecesNulFree(f[2..]);
      } else {
        assert forall c | c in f[1..] :: c in f;
        PiecesNulFree(f[1..]);
      }
    }
  }

  /** Helper for `PrintfNulFree`: directives without a NUL literal print no NUL. */
  lemma {:induction false} RenderNulFree(ps: seq<Piece>, args: seq<int>)
    requires Lit('\0') !in ps
    ensures '\0' !in Render(ps, args)
    decreases |ps|
  {
    if ps != [] {
      assert forall p | p in ps[1..] :: p in ps;
      if ps[0].Conv? && args != [] {
        RenderNulFree(ps[1..], args[1..]);
      } else {
        RenderNulFree(ps[1..], args);
      }
    }
  }

  /**
   * `sscanf` over directives: the values assigned, in order; their number is
   * what `sscanf` returns when some input is consumed. A white-space literal
   * skips any amount of white space, another literal must match the next
   * character exactly, and matching stops at the first failure.
   */
  function Match(ps: seq<Piece>, s: seq<char>): (vs: seq<int>)
    ensures |vs| <= Convs(ps)
  {
    if ps == [] then []
    else match ps[0]
      case Lit(c) =>
        if IsSpace(c) then Match(ps[1..], SkipSpace(s))
        else if s != [] && s[0] == c then Match(ps[1..], s[1..])
        else []
      case Conv =>
        match ScanInt(s)
        case None => []
        case Some((v, rest)) => [v] + Match(ps[1..], rest)
  }

  function Scanf(s: seq<char>, f: string): (vs: seq<int>)
    ensures |vs| <= Convs(Pieces(f))
  {
    Match(Pieces(f), s)
  }

  // ---------------------------------------------------------------------------
  // Round trip: what `snprintf` prints, `sscanf` with the same format reads back

  /**
   * A format that `sscanf` can read back unambiguously: a conversion is never
   * followed by another conversion or by a digit, and two white-space literals
   * never follow each other.
   */
  predicate Separated(ps: seq<Piece>)
  {
    |ps| < 2 || (CanFollow(ps[0], ps[1]) && Separated(ps[1..]))
  }

  predicate CanFollow(p: Piece, q: Piece)
  {
    (p.Conv? ==> q.Lit? && !IsDigit(q.c)) &&
    (p.Lit? && IsSpace(p.c) ==> !(q.Lit? && IsSpace(q.c)))
  }

  lemma {:induction false} NatDigitsAreDigits(n: nat)
    ensures forall k :: 0 <= k < |NatDigits(n)| ==> IsDigit(NatDigits(n)[k])
    decreases n
  {
    if n >= 10 {
      NatDigitsAreDigits(n / 10);
    }
  }

  lemma {:induction false} DigitsValueOfNatDigits(n: nat)
    ensures DigitsValue(NatDigits(n)) == n
    decreases n
  {
    var r := NatDigits(n);
    if n >= 10 {
      DigitsValueOfNatDigits(n / 10);
      assert r[..|r| - 1] == NatDigits(n / 10);
    }
  }

  lemma {:induction false} DigitRunOfDigits(ds: seq<char>, rest: seq<char>)
    requires forall k :: 0 <= k < |ds| ==> IsDigit(ds[k])
    requires rest == [] || !IsDigit(rest[0])
    ensures DigitRun(ds + rest) == |ds|
  {
    if ds != [] {
      assert (ds + rest)[1..] == ds[1..] + rest;
      DigitRunOfDigits(ds[1..], rest);
    }
  }

  /** The digit run of a text that starts with a digit. */
  lemma ScanDigitsOf(u: seq<char>)
    requires u != [] && IsDigit(u[0])
    ensures DigitRun(u) > 0
    ensures ScanDigits(u) == Some((DigitsValue(u[..DigitRun(u)]), u[DigitRun(u)..]))
  {
    assert DigitRun(u) == 1 + DigitRun(u[1..]);
  }

  /** `%d` on a text that starts with a digit. */
  lemma ScanIntUnsigned(u: seq<char>)
    requires u != [] && IsDigit(u[0])
    ensures DigitRun(u) > 0
    ensures ScanInt(u) == Some((DigitsValue(u[..DigitRun(u)]), u[DigitRun(u)..]))
  {
    assert !IsSpace(u[0]) && u[0] != '-' && u[0] != '+';
    assert SkipSpace(u) == u;
    ScanDigitsOf(u);
  }

  /** `%d` on a minus sign followed by a digit. */
  lemma ScanIntNegative(u: seq<char>)
    requires u != [] && IsDigit(u[0])
    ensures DigitRun(u) > 0
    ensures ScanInt(['-'] + u) == Some((-DigitsValue(u[..DigitRun(u)]), u[DigitRun(u)..]))
  {
    ScanDigitsOf(u);
    var s := ['-'] + u;
    assert s[0] == '-' && s[1..] == u;
    assert SkipSpace(s) == s;
  }

  /** The digits of `m` followed by a non-digit scan as `m`. */
  lemma DigitsThenRest(m: nat, rest: seq<char>)
    requires rest == [] || !IsDigit(rest[0])
    ensures var u := NatDigits(m) + rest;
      u != [] && IsDigit(u[0]) && DigitRun(u) == |NatDigits(m)| &&
      DigitsValue(u[..DigitRun(u)]) == m && u[DigitRun(u)..] == rest
  {
    var ds := NatDigits(m);
    var u := ds + rest;
    NatDigitsAreDigits(m);
    DigitRunOfDigits(ds, rest);
    DigitsValueOfNatDigits(m);
    assert u[..|ds|] == ds;
    assert u[|ds|..] == rest;
    assert u[0] == ds[0];
  }

  /** `%d` reads back what `%d` printed, leaving the text after it. */
  lemma ScanIntOfDec(n: int, rest: seq<char>)
    requires rest == [] || !IsDigit(rest[0])
    ensures ScanInt(Dec(n) + rest) == Some((n, rest))
  {
    if n < 0 {
      var u := NatDigits(-n) + rest;
      DigitsThenRest(-n, rest);
      AppendAssociative("-", NatDigits(-n), rest);
      ScanIntNegative(u);
    } else {
      DigitsThenRest(n, rest);
      ScanIntUnsigned(NatDigits(n) + rest);
    }
  }

  /** `atoi` reads back what `%d` printed. */
  lemma AtoiOfDec(n: int)
    ensures Atoi(Dec(n)) == n
  {
    ScanIntOfDec(n, []);
    assert Dec(n) + [] == Dec(n);
  }

  /** What a format prints starts with its first literal, or with the first number. */
  lemma RenderHead(ps: seq<Piece>, args: seq<int>)
    requires Convs(ps) == |args| && ps != []
    ensures Render(ps, args) != []
    ensures ps[0].Lit? ==> Render(ps, args)[0] == ps[0].c
    ensures ps[0].Conv? ==> Render(ps, args)[0] == '-' || IsDigit(Render(ps, args)[0])
  {
    if ps[0].Conv? {
      var a := args[0];
      NatDigitsAreDigits(if a < 0 then -a else a);
      var d := Dec(a);
      assert d[0] == '-' || IsDigit(d[0]);
    }
  }

  lemma MatchLiteralStep(ps: seq<Piece>, s: seq<char>)
    requires ps != [] && ps[0].Lit?
    requires IsSpace(ps[0].c) ==> s == [] || !IsSpace(s[0])
    ensures Match(ps, [ps[0].c] + s) == Match(ps[1..], s)
  {
    var t := [ps[0].c] + s;
    if IsSpace(ps[0].c) {
      assert t[1..] == s;
      assert SkipSpace(t) == SkipSpace(s) == s;
    } else {
      assert t[0] == ps[0].c && t[1..] == s;
    }
  }

  lemma MatchConvStep(ps: seq<Piece>, n: int, rest: seq<char>)
    requires ps != [] && ps[0].Conv?
    requires rest == [] || !IsDigit(rest[0])
    ensures Match(ps, Dec(n) + rest) == [n] + Match(ps[1..], rest)
  {
    ScanIntOfDec(n, rest);
  }

  /** `sscanf` with a separated format reads back exactly the arguments `snprintf` printed. */
  lemma {:induction false} MatchRender(ps: seq<Piece>, args: seq<int>)
    requires Convs(ps) == |args| && Separated(ps)
    ensures Match(ps, Render(ps, args)) == args
  {
    if ps == [] {
      return;
    }
    assert Separated(ps[1..]);
    if ps[0].Lit? {
      MatchRender(ps[1..], args);
      MatchRenderLiteral(ps, args);
    } else {
      MatchRender(ps[1..], args[1..]);
      MatchRenderConv(ps, args);
    }
  }

  /** Helper for `MatchRender`: a leading literal, given the round trip of the rest. */
  lemma MatchRenderLiteral(ps: seq<Piece>, args: seq<int>)
    requires ps != [] && ps[0].Lit? && Separated(ps) && Convs(ps) == |args|
    requires Match(ps[1..], Render(ps[1..], args)) == args
    ensures Match(ps, Render(ps, args)) == args
  {
    var tail := ps[1..];
    var rest := Render(tail, args);
    assert Render(ps, args) == [ps[0].c] + rest;
    if tail != [] {
      RenderHead(tail, args);
    }
    MatchLiteralStep(ps, rest);
  }

  /** Helper for `MatchRender`: a leading conversion, given the round trip of the rest. */
  lemma MatchRenderConv(ps: seq<Piece>, args: seq<int>)
    requires ps != [] && ps[0].Conv? && Separated(ps) && Convs(ps) == |args|
    requires Match(ps[1..], Render(ps[1..], args[1..])) == args[1..]
    ensures Match(ps, Render(ps, args)) == args
  {
    var rest := Render(ps[1..], args[1..]);
    RenderConv(ps, args);
    MatchConvTail(ps, args[0], rest, args[1..]);
    assert [args[0]] + args[1..] == args;
  }

  /** Helper for `MatchRenderConv`: reading a printed number, then what follows it. */
  lemma MatchConvTail(ps: seq<Piece>, n: int, rest: seq<char>, vs: seq<int>)
    requires ps != [] && ps[0].Conv?
    requires rest == [] || !IsDigit(rest[0])
    requires Match(ps[1..], rest) == vs
    ensures Match(ps, Dec(n) + rest) == [n] + vs
  {
    MatchConvStep(ps, n, rest);
  }

  /** Helper for `MatchRenderConv`: a printed number is followed by a non-digit or by nothing. */
  lemma RenderConv(ps: seq<Piece>, args: seq<int>)
    requires ps != [] && ps[0].Conv? && Separated(ps) && Convs(ps) == |args|
    ensures var rest := Render(ps[1..], args[1..]);
      Render(ps, args) == Dec(args[0]) + rest && (rest == [] || !IsDigit(rest[0]))
  {
    if |ps| >= 2 {
      assert CanFollow(ps[0], ps[1]);
      RenderHead(ps[1..], args[1..]);
    }
  }

  /** The round trip, stated on format strings. */
  lemma ScanfPrintf(f: string, args: seq<int>)
    requires Convs(Pieces(f)) == |args| && Separated(Pieces(f))
    ensures Scanf(Printf(f, args), f) == args
  {
    MatchRender(Pieces(f), args);
  }

  // ---------------------------------------------------------------------------
  // Formats assembled from pieces

  /** Text free of `%` is read as literals, whatever follows it. */
  lemma {:induction false} PiecesAppend(lit: string, f: string)
    requires '%' !in lit
    ensures Pieces(lit + f) == Pieces(lit) + Pieces(f)
    decreases |lit|
  {
    if lit != [] {
      var c := lit[0];
      assert c != '%' by { assert lit[0] in lit; }
      assert (lit + f)[0] == c && (lit + f)[1..] == lit[1..] + f;
      assert Pieces(lit + f) == [Lit(c)] + Pieces(lit[1..] + f);
      assert Pieces(lit) == [Lit(c)] + Pieces(lit[1..]);
      assert '%' !in lit[1..] by { assert forall k :: 0 <= k < |lit| - 1 ==> lit[1..][k] == lit[k + 1]; }
      PiecesAppend(lit[1..], f);
    } else {
      assert lit + f == f;
    }
  }

  /** Text free of `%` prints as itself. */
  lemma {:induction false} RenderLiteral(lit: string, args: seq<int>)
    requires '%' !in lit
    ensures Convs(Pieces(lit)) == 0
    ensures Render(Pieces(lit), args) == lit
    decreases |lit|
  {
    if lit != [] {
      var c := lit[0];
      assert c != '%' by { assert lit[0] in lit; }
      assert Pieces(lit) == [Lit(c)] + Pieces(lit[1..]);
      assert '%' !in lit[1..] by { assert forall k :: 0 <= k < |lit| - 1 ==> lit[1..][k] == lit[k + 1]; }
      RenderLiteral(lit[1..], args);
      assert lit == [c] + lit[1..];
    }
  }

  lemma {:induction false} ConvsAppend(ps: seq<Piece>, qs: seq<Piece>)
    ensures Convs(ps + qs) == Convs(ps) + Convs(qs)
  {
    if ps != [] {
      assert (ps + qs)[0] == ps[0] && (ps + qs)[1..] == ps[1..] + qs;
      ConvsAppend(ps[1..], qs);
    } else {
      assert ps + qs == qs;
    }
  }

  /** Printing two formats one after the other shares out the arguments. */
  lemma {:induction false} RenderAppend(ps: seq<Piece>, qs: seq<Piece>, args: seq<int>)
    requires Convs(ps) <= |args|
    ensures Render(ps + qs, args) == Render(ps, args[..Convs(ps)]) + Render(qs, args[Convs(ps)..])
  {
    if ps == [] {
      assert ps + qs == qs && args[0..] == args;
    } else {
      var pq := ps + qs;
      assert pq[0] == ps[0] && pq[1..] == ps[1..] + qs;
      var n := Convs(ps);
      if ps[0].Conv? {
        assert args != [];
        RenderAppend(ps[1..], qs, args[1..]);
        assert args[..n] != [] && args[..n][0] == args[0];
        assert args[..n][1..] == args[1..][..n - 1];
        assert args[n..] == args[1..][n - 1..];
      } else {
        RenderAppend(ps[1..], qs, args);
      }
    }
  }

  /** A format that starts with text free of `%` prints that text first. */
  lemma PrintfLiteralPrefix(lit: string, f: string, args: seq<int>)
    requires '%' !in lit
    ensures Convs(Pieces(lit + f)) == Convs(Pieces(f))
    ensures Printf(lit + f, args) == lit + Printf(f, args)
  {
    PiecesAppend(lit, f);
    ConvsAppend(Pieces(lit), Pieces(f));
    RenderLiteral(lit, []);
    RenderLiteral(lit, args[..0]);
    RenderAppend(Pieces(lit), Pieces(f), args);
    assert args[0..] == args;
  }

  /** A format that starts with `%d` prints the first argument first. */
  lemma PrintfConvPrefix(f: string, a: int, args: seq<int>)
    ensures Pieces("%d" + f) == [Conv] + Pieces(f)
    ensures Printf("%d" + f, [a] + args) == Dec(a) + Printf(f, args)
  {
    var g := "%d" + f;
    assert g[0] == '%' && g[1] == 'd' && g[2..] == f;
    var ps := Pieces(g);
    assert ps[0] == Conv && ps[1..] == Pieces(f);
    assert ([a] + args)[1..] == args;
  }

  /** No two white-space characters in a row. */
  predicate SingleSpaced(lit: string)
  {
    forall k :: 0 < k < |lit| && IsSpace(lit[k]) ==> !IsSpace(lit[k - 1])
  }

  /** Text free of `%` with no doubled white space is a separated format of literals. */
  lemma {:induction false} SeparatedLiteral(lit: string)
    requires '%' !in lit && SingleSpaced(lit)
    ensures |Pieces(lit)| == |lit|
    ensures forall k :: 0 <= k < |lit| ==> Pieces(lit)[k] == Lit(lit[k])
    ensures Separated(Pieces(lit))
    decreases |lit|
  {
    if lit != [] {
      var c := lit[0];
      var tail := lit[1..];
      assert c != '%' by { assert lit[0] in lit; }
      assert Pieces(lit) == [Lit(c)] + Pieces(tail);
      assert '%' !in tail by { assert forall k :: 0 <= k < |tail| ==> tail[k] == lit[k + 1]; }
      assert SingleSpaced(tail) by {
        forall k | 0 < k < |tail| && IsSpace(tail[k])
          ensures !IsSpace(tail[k - 1])
        {
          assert tail[k] == lit[k + 1] && tail[k - 1] == lit[k];
        }
      }
      SeparatedLiteral(tail);
      if |lit| >= 2 {
        assert lit[1] == tail[0];
      }
    }
  }

  /** Joining two separated formats keeps the result separated if the seam is. */
  lemma {:induction false} SeparatedAppend(ps: seq<Piece>, qs: seq<Piece>)
    requires Separated(ps) && Separated(qs)
    requires ps != [] && qs != [] ==> CanFollow(ps[|ps| - 1], qs[0])
    ensures Separated(ps + qs)
  {
    if ps != [] {
      var pq := ps + qs;
      assert pq[1..] == ps[1..] + qs;
      SeparatedAppend(ps[1..], qs);
      if |pq| >= 2 {
        assert pq[0] == ps[0];
        if |ps| == 1 {
          assert pq[1] == qs[0];
        } else {
          assert pq[1] == ps[1];
        }
      }
    } else {
      assert ps + qs == qs;
    }
  }

  /**
   * A literal, a `%d` and a separated rest make a separated format, as long as
   * the rest does not open with a digit or a conversion.
   */
  lemma SeparatedLiteralConv(lit: string, f: string)
    requires '%' !in lit && SingleSpaced(lit) && Separated(Pieces(f))
    requires Pieces(f) == [] || (Pieces(f)[0].Lit? && !IsDigit(Pieces(f)[0].c))
    ensures Pieces(lit + ("%d" + f)) == Pieces(lit) + ([Conv] + Pieces(f))
    ensures Separated(Pieces(lit + ("%d" + f)))
    ensures Convs(Pieces(lit + ("%d" + f))) == Convs(Pieces(f)) + 1
  {
    SeparatedLiteral(lit);
    RenderLiteral(lit, []);
    PiecesAppend(lit, "%d" + f);
    PrintfConvPrefix(f, 0, []);
    var tail := [Conv] + Pieces(f);
    assert tail[1..] == Pieces(f);
    assert Separated(tail);
    SeparatedAppend(Pieces(lit), tail);
    ConvsAppend(Pieces(lit), tail);
  }

  // ---------------------------------------------------------------------------
  // Formats of literal text and one, two or three `%d` conversions

  // (stated right-nested, the way the directives are consumed)

  lemma PrintfOne(l1: string, l2: string, a: int)
    requires '%' !in l1 && '%' !in l2
    ensures Printf(l1 + ("%d" + l2), [a]) == l1 + (Dec(a) + l2)
  {
    PrintfLiteralPrefix(l1, "%d" + l2, [a]);
    PrintfConvPrefix(l2, a, []);
    assert [a] + [] == [a];
    RenderLiteral(l2, []);
  }

  lemma PrintfTwo(l1: string, l2: string, l3: string, a: int, b: int)
    requires '%' !in l1 && '%' !in l2 && '%' !in l3
    ensures Printf(l1 + ("%d" + (l2 + ("%d" + l3))), [a, b]) == l1 + (Dec(a) + (l2 + (Dec(b) + l3)))
  {
    var tail := l2 + ("%d" + l3);
    PrintfLiteralPrefix(l1, "%d" + tail, [a, b]);
    PrintfConvPrefix(tail, a, [b]);
    assert [a, b] == [a] + [b];
    PrintfOne(l2, l3, b);
  }

  lemma PrintfThree(l1: string, l2: string, l3: string, l4: string, a: int, b: int, c: int)
    requires '%' !in l1 && '%' !in l2 && '%' !in l3 && '%' !in l4
    ensures Printf(l1 + ("%d" + (l2 + ("%d" + (l3 + ("%d" + l4))))), [a, b, c]) ==
      l1 + (Dec(a) + (l2 + (Dec(b) + (l3 + (Dec(c) + l4)))))
  {
    var tail := l2 + ("%d" + (l3 + ("%d" + l4)));
    PrintfLiteralPrefix(l1, "%d" + tail, [a, b, c]);
    PrintfConvPrefix(tail, a, [b, c]);
    assert [a, b, c] == [a] + [b, c];
    PrintfTwo(l2, l3, l4, b, c);
  }

  /** A literal that may end a separated format: free of `%`, no doubled white space. */
  predicate PlainText(lit: string)
  {
    '%' !in lit && SingleSpaced(lit)
  }

  /** A literal that may follow a conversion: plain text that does not start with a digit. */
  predicate AfterConv(lit: string)
  {
    PlainText(lit) && lit != [] && !IsDigit(lit[0])
  }

  lemma SeparatedOne(l1: string, l2: string)
    requires PlainText(l1) && (l2 == [] || AfterConv(l2))
    ensures Separated(Pieces(l1 + ("%d" + l2))) && Convs(Pieces(l1 + ("%d" + l2))) == 1
    ensures Pieces(l1 + ("%d" + l2)) == Pieces(l1) + ([Conv] + Pieces(l2))
  {
    SeparatedLiteral(l2);
    RenderLiteral(l2, []);
    if l2 != [] {
      assert Pieces(l2)[0] == Lit(l2[0]);
    }
    SeparatedLiteralConv(l1, l2);
  }

  lemma SeparatedTwo(l1: string, l2: string, l3: string)
    requires PlainText(l1) && AfterConv(l2) && (l3 == [] || AfterConv(l3))
    ensures var f := l1 + ("%d" + (l2 + ("%d" + l3)));
      Separated(Pieces(f)) && Convs(Pieces(f)) == 2
  {
    var tail := l2 + ("%d" + l3);
    SeparatedOne(l2, l3);
    SeparatedLiteral(l2);
    assert Pieces(tail)[0] == Lit(l2[0]);
    SeparatedLiteralConv(l1, tail);
  }
}

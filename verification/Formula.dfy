/** Text search by formula: words joined by & and |, negated by !, grouped by
    parentheses, parsed and evaluated in one pass by functions that share a
    cursor into the formula. */
module Formula {
  const NUL: char := 0 as char

  predicate IsSpace(c: char) {
    c == ' ' || '\t' <= c <= '\r'
  }

  predicate IsAlpha(c: char) {
    'a' <= c <= 'z' || 'A' <= c <= 'Z'
  }

  predicate IsAlnum(c: char) {
    IsAlpha(c) || '0' <= c <= '9'
  }

  /** The blanks are tab, line feed, vertical tab, form feed, carriage return and
      space; letters and digits are those of ASCII. */
  lemma CharacterClasses(c: char)
    ensures IsSpace(c) <==> c as int in {9, 10, 11, 12, 13, 32}
    ensures IsAlpha(c) <==> 65 <= c as int <= 90 || 97 <= c as int <= 122
    ensures IsAlnum(c) <==> IsAlpha(c) || 48 <= c as int <= 57
  {
  }

  /** The characters that end a word. */
  predicate EndsWord(c: char) {
    c == '&' || c == ' ' || c == '|' || c == '(' || c == ')'
  }

  /** The formula as the code reads it: its characters and then a NUL.  Reading
      past the NUL is excluded everywhere. */
  function At(f: string, pos: nat): char
    requires pos <= |f|
  {
    if pos < |f| then f[pos] else NUL
  }

  /** A C string: no NUL inside. */
  predicate IsFormula(f: string) {
    forall k | 0 <= k < |f| :: f[k] != NUL
  }

  // ------------------------------------------------- the tree of a formula

  datatype Tree =
    | Never
    | Matches(word: string)
    | Not(t: Tree)
    | And(l: Tree, r: Tree)
    | Or(l: Tree, r: Tree)

  /** A tree's value for a text, given by the words that match it. */
  predicate Eval(t: Tree, matches: string -> bool) {
    match t
    case Never => false
    case Matches(w) => matches(w)
    case Not(u) => !Eval(u, matches)
    case And(l, r) => Eval(l, matches) && Eval(r, matches)
    case Or(l, r) => Eval(l, matches) || Eval(r, matches)
  }

  /** An even number of negations. */
  predicate Even(n: nat) {
    n % 2 == 0
  }

  lemma EvenNext(n: nat)
    ensures Even(0) && Even(n + 1) == !Even(n)
  {
  }

  function Signed(sign: bool, t: Tree): Tree {
    if sign then t else Not(t)
  }

  datatype Parsed = Parsed(tree: Tree, pos: nat)

  function SkipSpace(f: string, pos: nat): (p: nat)
    requires pos <= |f|
    ensures pos <= p <= |f|
    decreases |f| - pos
  {
    if pos < |f| && IsSpace(f[pos]) then SkipSpace(f, pos + 1) else pos
  }

  function SkipWords(f: string, pos: nat): (p: nat)
    requires pos <= |f|
    ensures pos <= p <= |f|
    decreases |f| - pos
  {
    if pos < |f| && (IsAlnum(f[pos]) || IsSpace(f[pos])) then SkipWords(f, pos + 1) else pos
  }

  /** Where the next operator stands: behind blanks and a run of words. */
  function TokenAt(f: string, pos: nat): (p: nat)
    requires pos <= |f|
    ensures pos <= p <= |f|
  {
    var p := SkipSpace(f, pos);
    if IsAlpha(At(f, p)) then SkipWords(f, p) else p
  }

  /** The position behind a run of exclamation marks. */
  function SkipBangs(f: string, pos: nat): (p: nat)
    requires pos <= |f|
    ensures pos <= p <= |f|
    ensures p < |f| ==> f[p] != '!'
    decreases |f| - pos
  {
    if pos < |f| && f[pos] == '!' then SkipBangs(f, pos + 1) else pos
  }

  lemma NoBangHere(f: string, pos: nat)
    requires pos <= |f| && At(f, pos) != '!'
    ensures SkipBangs(f, pos) == pos
  {
  }

  /** The position behind the characters of one word. */
  function SkipWord(f: string, pos: nat): (p: nat)
    requires pos <= |f|
    ensures pos <= p <= |f|
    decreases |f| - pos
  {
    if pos < |f| && f[pos] != '!' && !EndsWord(f[pos]) then SkipWord(f, pos + 1) else pos
  }

  lemma BangSkipped(f: string, pos: nat)
    requires pos < |f| && f[pos] == '!'
    ensures SkipBangs(f, pos) == SkipBangs(f, pos + 1)
  {
  }

  lemma WordEnds(f: string, pos: nat)
    requires pos <= |f| && (pos == |f| || f[pos] == '!' || EndsWord(f[pos]))
    ensures SkipWord(f, pos) == pos
  {
  }

  lemma WordGoesOn(f: string, start: nat, pos: nat)
    requires start <= pos < |f| && f[pos] != '!' && !EndsWord(f[pos])
    ensures SkipWord(f, pos) == SkipWord(f, pos + 1)
    ensures f[start..pos] + [f[pos]] == f[start..pos + 1]
  {
  }

  /** An operand: a word or a group in parentheses, negated an odd number of
      times or an even one. */
  function ParseValue(f: string, pos: nat): (r: Parsed)
    requires IsFormula(f) && pos <= |f|
    ensures pos <= r.pos <= |f| + 1
    decreases |f| + 1 - pos, 1
  {
    var start := SkipSpace(f, pos);
    var p := SkipBangs(f, start);
    var sign := Even(p - start);
    var c := At(f, p);
    if p > start && c == NUL then Parsed(Never, p)
    else if c == '&' || c == ' ' || c == '|' then Parsed(Never, p)
    else if c == '(' then
      var group := ParseWh(f, p + 1);
      Parsed(Signed(sign, group.tree), group.pos)
    else
      var e := SkipWord(f, p);
      Parsed(Signed(sign, Matches(f[p..e])), e)
  }

  /** Operands and operators up to a closing parenthesis or the end. */
  function ParseWh(f: string, pos: nat): (r: Parsed)
    requires IsFormula(f) && pos <= |f|
    ensures pos <= r.pos <= |f| + 1
    decreases |f| + 1 - pos, 2
  {
    var v := ParseValue(f, pos);
    ParseRest(f, v.pos, v.tree)
  }

  /** What is read on behind a left operand. */
  function ParseRest(f: string, pos: nat, left: Tree): (r: Parsed)
    requires IsFormula(f) && pos <= |f| + 1
    ensures pos <= r.pos <= |f| + 1
    decreases |f| + 1 - pos, 0
  {
    if pos >= |f| then Parsed(left, pos)
    else
      var p := TokenAt(f, pos);
      var token := At(f, p);
      if token == ' ' || token == '&' then
        var right := ParseWh(f, p + 1);
        ParseRest(f, right.pos, And(left, right.tree))
      else if token == '|' then
        var right := ParseWh(f, p + 1);
        ParseRest(f, right.pos, Or(left, right.tree))
      else Parsed(left, p + 1)
  }

  /** The tree of a whole formula; no text is involved. */
  function TreeOf(f: string): Tree
    requires IsFormula(f)
  {
    ParseWh(f, 0).tree
  }

  // ------------------------------------------------------ the evaluator

  class Evaluator {
    const formula: string
    // Does the text contain this word?
    const matches: string -> bool
    var pos: nat

    constructor (formula: string, matches: string -> bool)
      ensures this.formula == formula && this.matches == matches && pos == 0
    {
      this.formula := formula;
      this.matches := matches;
      pos := 0;
    }

    /** Evaluates the formula: the value of its tree. */
    static method CompareStrings(formula: string, matches: string -> bool) returns (found: bool)
      requires IsFormula(formula)
      ensures found == Eval(TreeOf(formula), matches)
    {
      var e := new Evaluator(formula, matches);
      found := e.CompareStringsWh();
    }

    /** Parses and evaluates at once.  The cursor moves as the parser of trees
        moves it, whatever the text. */
    method CompareStringsWh() returns (lvalue: bool)
      requires IsFormula(formula) && pos <= |formula|
      modifies this
      ensures var r := ParseWh(formula, old(pos)); lvalue == Eval(r.tree, matches) && pos == r.pos
      decreases |formula| + 1 - pos, 2
    {
      hide ParseValue, TokenAt, IsFormula;
      var size := |formula|;
      lvalue := GetValue();
      ghost var t := ParseValue(formula, old(pos)).tree;
      while pos < size
        invariant old(pos) <= pos <= size + 1
        invariant lvalue == Eval(t, matches)
        invariant ParseRest(formula, pos, t) == ParseWh(formula, old(pos))
        decreases size + 1 - pos
      {
        var token := GetToken();
        if token == ' ' || token == '&' {
          ghost var right := ParseWh(formula, pos).tree;
          var rvalue := CompareStringsWh();
          lvalue := lvalue && rvalue;
          t := And(t, right);
        } else if token == '|' {
          ghost var right := ParseWh(formula, pos).tree;
          var rvalue := CompareStringsWh();
          lvalue := lvalue || rvalue;
          t := Or(t, right);
        } else {
          return;
        }
      }
    }

    method SkipSpaces()
      requires pos <= |formula|
      modifies this
      ensures pos == SkipSpace(formula, old(pos))
    {
      while At(formula, pos) != NUL && IsSpace(At(formula, pos))
        invariant pos <= |formula| && SkipSpace(formula, pos) == SkipSpace(formula, old(pos))
        decreases |formula| - pos
      {
        pos := pos + 1;
      }
    }

    /** Moves past the next operator and returns it. */
    method GetToken() returns (token: char)
      requires pos < |formula|
      modifies this
      ensures token == At(formula, TokenAt(formula, old(pos))) && pos == TokenAt(formula, old(pos)) + 1
    {
      SkipSpaces();
      if IsAlpha(At(formula, pos)) {
        ghost var start := pos;
        while IsAlnum(At(formula, pos)) || IsSpace(At(formula, pos))
          invariant pos <= |formula| && SkipWords(formula, pos) == SkipWords(formula, start)
          decreases |formula| - pos
        {
          pos := pos + 1;
        }
      }
      pos := pos + 1;
      token := At(formula, pos - 1);
    }

    /** Reads an operand and returns its value. */
    method GetValue() returns (value: bool)
      requires IsFormula(formula) && pos <= |formula|
      modifies this
      ensures var r := ParseValue(formula, old(pos)); value == Eval(r.tree, matches) && pos == r.pos
      decreases |formula| + 1 - pos, 1
    {
      hide SkipSpace, SkipBangs, SkipWord, ParseWh;
      SkipSpaces();
      var sign, cut := ReadSigns();
      if cut {
        return false;
      }
      var x := At(formula, pos);
      if x == '&' || x == ' ' || x == '|' {
        return false;
      }
      if x == '(' {
        pos := pos + 1;
        var group := CompareStringsWh();
        return if sign then group else !group;
      }
      NoBangHere(formula, pos);
      value := ReadWord(sign);
    }

    /** Reads the exclamation marks in front of an operand; `cut` when the
        formula ends behind them. */
    method ReadSigns() returns (sign: bool, cut: bool)
      requires IsFormula(formula) && pos <= |formula|
      modifies this
      ensures pos == SkipBangs(formula, old(pos)) && sign == Even(pos - old(pos))
      ensures cut <==> pos > old(pos) && At(formula, pos) == NUL
    {
      hide SkipBangs, Even;
      EvenNext(0);
      sign := true;
      var x := At(formula, pos);
      while x == '!'
        invariant old(pos) <= pos <= |formula| && x == At(formula, pos)
        invariant SkipBangs(formula, pos) == SkipBangs(formula, old(pos))
        invariant sign == Even(pos - old(pos))
        invariant pos > old(pos) ==> x != NUL
        decreases |formula| - pos
      {
        EvenNext(pos - old(pos));
        BangSkipped(formula, pos);
        sign := !sign;
        pos := pos + 1;
        if At(formula, pos) == NUL {
          NoBangHere(formula, pos);
          return sign, true;
        }
        x := At(formula, pos);
      }
      NoBangHere(formula, pos);
      cut := false;
    }

    /** Reads a word, with the exclamation marks in front of it, and looks for
        it in the text. */
    method ReadWord(sign0: bool) returns (value: bool)
      requires IsFormula(formula) && pos <= |formula|
      modifies this
      ensures var p := SkipBangs(formula, old(pos));
              && pos == SkipWord(formula, p)
              && value == Eval(Signed(sign0 == Even(p - old(pos)), Matches(formula[p..pos])), matches)
    {
      hide SkipBangs, SkipWord, EndsWord, Even;
      EvenNext(0);
      var sign := sign0;
      var done, started := false, false;
      var buffer := "";
      ghost var start := pos;
      while !done && At(formula, pos) != NUL
        invariant old(pos) <= start <= pos <= |formula| && buffer == formula[start..pos]
        invariant SkipBangs(formula, start) == SkipBangs(formula, old(pos))
        invariant started ==> pos > start && start == SkipBangs(formula, old(pos))
        invariant started ==> SkipWord(formula, pos) == SkipWord(formula, start)
        invariant !started ==> pos == start
        invariant done ==> SkipWord(formula, pos) == pos && start == SkipBangs(formula, old(pos))
        invariant sign == (sign0 == Even(start - old(pos)))
        decreases |formula| - pos, !done
      {
        var x := At(formula, pos);
        if x == '!' {
          if started {
            done := true;
            WordEnds(formula, pos);
          } else {
            BangSkipped(formula, pos);
            EvenNext(start - old(pos));
            sign := !sign;
            pos := pos + 1;
            start := pos;
          }
        } else if EndsWord(x) {
          done := true;
          NoBangHere(formula, pos);
          WordEnds(formula, pos);
        } else {
          NoBangHere(formula, pos);
          WordGoesOn(formula, start, pos);
          started := true;
          buffer := buffer + [x];
          pos := pos + 1;
        }
      }
      if !done {
        NoBangHere(formula, pos);
        WordEnds(formula, pos);
      }
      var found := matches(buffer);
      return if sign then found else !found;
    }
  }

  // ------------------------------------------------------------ monotony

  predicate NoNot(t: Tree) {
    match t
    case Never => true
    case Matches(_) => true
    case Not(_) => false
    case And(l, r) => NoNot(l) && NoNot(r)
    case Or(l, r) => NoNot(l) && NoNot(r)
  }

  predicate NoBangs(f: string) {
    forall k | 0 <= k < |f| :: f[k] != '!'
  }

  lemma {:induction false} ValueHasNoNot(f: string, pos: nat)
    requires IsFormula(f) && NoBangs(f) && pos <= |f|
    ensures NoNot(ParseValue(f, pos).tree)
    decreases |f| + 1 - pos, 1
  {
    var p := SkipSpace(f, pos);
    assert SkipBangs(f, p) == p;
    if At(f, p) == '(' {
      WhHasNoNot(f, p + 1);
    }
  }

  lemma {:induction false} WhHasNoNot(f: string, pos: nat)
    requires IsFormula(f) && NoBangs(f) && pos <= |f|
    ensures NoNot(ParseWh(f, pos).tree)
    decreases |f| + 1 - pos, 2
  {
    ValueHasNoNot(f, pos);
    var v := ParseValue(f, pos);
    RestHasNoNot(f, v.pos, v.tree);
  }

  lemma {:induction false} RestHasNoNot(f: string, pos: nat, left: Tree)
    requires IsFormula(f) && NoBangs(f) && pos <= |f| + 1 && NoNot(left)
    ensures NoNot(ParseRest(f, pos, left).tree)
    decreases |f| + 1 - pos, 0
  {
    if pos < |f| {
      var p := TokenAt(f, pos);
      var token := At(f, p);
      if token == ' ' || token == '&' || token == '|' {
        WhHasNoNot(f, p + 1);
        var right := ParseWh(f, p + 1);
        RestHasNoNot(f, right.pos, if token == '|' then Or(left, right.tree) else And(left, right.tree));
      }
    }
  }

  lemma {:induction false} EvalMonotone(t: Tree, m: string -> bool, m': string -> bool)
    requires NoNot(t) && (forall w :: m(w) ==> m'(w)) && Eval(t, m)
    ensures Eval(t, m')
  {
    match t
    case And(l, r) =>
      EvalMonotone(l, m, m');
      EvalMonotone(r, m, m');
    case Or(l, r) =>
      if Eval(l, m) {
        EvalMonotone(l, m, m');
      } else {
        EvalMonotone(r, m, m');
      }
    case _ =>
  }

  /** A formula without ! only gains from words that match in addition. */
  lemma FormulaMonotone(f: string, m: string -> bool, m': string -> bool)
    requires IsFormula(f) && NoBangs(f) && forall w :: m(w) ==> m'(w)
    ensures Eval(TreeOf(f), m) ==> Eval(TreeOf(f), m')
  {
    if Eval(TreeOf(f), m) {
      WhHasNoNot(f, 0);
      EvalMonotone(TreeOf(f), m, m');
    }
  }

  // -------------------------------------------------- what formulas mean

  /** A word with its negations and the blanks around it, and the further words
      that follow it. */
  datatype Item = Item(before: string, bangs: nat, word: string, behind: string, ignored: string)

  function Bangs(n: nat): string {
    if n == 0 then "" else "!" + Bangs(n - 1)
  }

  /** Items joined by operators, as one writes them. */
  function Written(items: seq<Item>, ops: seq<char>): string
    requires |items| == |ops| + 1
    decreases |items|
  {
    var i := items[0];
    var first := i.before + (Bangs(i.bangs) + (i.word + (i.behind + i.ignored)));
    if ops == [] then first else first + ([ops[0]] + Written(items[1..], ops[1..]))
  }

  function ItemTree(item: Item): Tree {
    Signed(Even(item.bangs), Matches(item.word))
  }

  /** Operators group to the right and neither binds more strongly. */
  function RightGrouped(items: seq<Item>, ops: seq<char>): Tree
    requires |items| == |ops| + 1
    decreases |items|
  {
    var first := ItemTree(items[0]);
    if ops == [] then first
    else
      var rest := RightGrouped(items[1..], ops[1..]);
      if ops[0] == '|' then Or(first, rest) else And(first, rest)
  }

  predicate PlainWord(w: string) {
    && w != ""
    && forall k | 0 <= k < |w| ::
         && !IsSpace(w[k]) && w[k] != NUL && w[k] != '!' && w[k] != '&' && w[k] != '|' && w[k] != '(' && w[k] != ')'
  }

  predicate Gap(s: string) {
    forall k | 0 <= k < |s| :: IsSpace(s[k])
  }

  predicate OnlyWords(t: string) {
    forall k | 0 <= k < |t| :: IsAlnum(t[k]) || IsSpace(t[k])
  }

  /** Blanks, and words of which the first starts with a letter. */
  predicate Passed(gap: string, words: string) {
    Gap(gap) && (words != "" ==> IsAlpha(words[0]) && OnlyWords(words))
  }

  /** The blanks behind a word start with a space, since other blanks do not end
      it; only behind blanks can more words follow. */
  predicate PlainItem(i: Item) {
    && PlainWord(i.word) && Gap(i.before) && Passed(i.behind, i.ignored)
    && (i.behind != "" ==> i.behind[0] == ' ') && (i.ignored != "" ==> i.behind != "")
  }

  predicate Plain(items: seq<Item>, ops: seq<char>) {
    && |items| == |ops| + 1
    && (forall k | 0 <= k < |items| :: PlainItem(items[k]))
    && (forall k | 0 <= k < |ops| :: Operator(ops[k]))
  }

  lemma {:induction false} SkipBangsOf(f: string, pos: nat, n: nat, rest: string)
    requires pos <= |f| && f[pos..] == Bangs(n) + rest && (rest == "" || rest[0] != '!')
    ensures SkipBangs(f, pos) == pos + n
    decreases n
  {
    if n == 0 {
      assert pos < |f| ==> f[pos] == f[pos..][0];
    } else {
      assert f[pos] == f[pos..][0] == '!';
      assert f[pos + 1..] == f[pos..][1..] == Bangs(n - 1) + rest;
      SkipBangsOf(f, pos + 1, n - 1, rest);
    }
  }

  lemma {:induction false} SkipWordOf(f: string, pos: nat, w: string, rest: string)
    requires pos <= |f| && f[pos..] == w + rest
    requires forall k | 0 <= k < |w| :: w[k] != '!' && !EndsWord(w[k])
    requires rest == "" || rest[0] == '!' || EndsWord(rest[0])
    ensures SkipWord(f, pos) == pos + |w| && f[pos..pos + |w|] == w
    decreases |w|
  {
    if w == "" {
      assert pos < |f| ==> f[pos] == f[pos..][0];
    } else {
      assert f[pos] == f[pos..][0] == w[0];
      assert f[pos + 1..] == f[pos..][1..] == w[1..] + rest;
      SkipWordOf(f, pos + 1, w[1..], rest);
      assert f[pos..pos + |w|] == [f[pos]] + f[pos + 1..pos + |w|];
    }
  }

  lemma {:induction false} SkipWordsOf(f: string, pos: nat, words: string, rest: string)
    requires pos <= |f| && f[pos..] == words + rest && OnlyWords(words)
    requires rest == "" || !(IsAlnum(rest[0]) || IsSpace(rest[0]))
    ensures SkipWords(f, pos) == pos + |words| && f[pos + |words|..] == rest
    decreases |words|
  {
    if words == "" {
      assert pos < |f| ==> f[pos] == f[pos..][0];
    } else {
      assert f[pos] == f[pos..][0] == words[0];
      assert f[pos + 1..] == f[pos..][1..] == words[1..] + rest;
      SkipWordsOf(f, pos + 1, words[1..], rest);
    }
  }

  lemma {:induction false} SkipSpaceOf(f: string, pos: nat, gap: string, rest: string)
    requires pos <= |f| && f[pos..] == gap + rest && Gap(gap) && (rest == "" || !IsSpace(rest[0]))
    ensures SkipSpace(f, pos) == pos + |gap| && f[pos + |gap|..] == rest
    decreases |gap|
  {
    if gap == "" {
      assert pos < |f| ==> f[pos] == f[pos..][0];
    } else {
      assert f[pos] == f[pos..][0] == gap[0];
      assert f[pos + 1..] == f[pos..][1..] == gap[1..] + rest;
      SkipSpaceOf(f, pos + 1, gap[1..], rest);
    }
  }

  /** An item is read as itself, up to the blanks behind it. */
  lemma ItemValue(f: string, pos: nat, item: Item, rest: string)
    requires IsFormula(f) && pos <= |f| && f[pos..] == item.before + (Bangs(item.bangs) + (item.word + rest))
    requires PlainWord(item.word) && Gap(item.before) && (rest == "" || rest[0] == '!' || EndsWord(rest[0]))
    ensures var e := pos + |item.before| + item.bangs + |item.word|;
            e <= |f| && f[e..] == rest && ParseValue(f, pos) == Parsed(ItemTree(item), e)
  {
    hide SkipBangs, SkipWord, SkipSpace, Bangs, Even, Gap, IsSpace, EndsWord;
    var n, w := item.bangs, item.word;
    FirstOfWord(w);
    var p := MarksSkipped(f, pos, item.before, n, w + rest);
    WordValue(f, p, w, rest);
    WordRead(f, pos, p, w, n);
  }

  lemma FirstOfWord(w: string)
    requires PlainWord(w)
    ensures w[0] != '!' && !IsSpace(w[0]) && !EndsWord(w[0])
  {
  }

  /** Blanks and marks are read over. */
  lemma MarksSkipped(f: string, pos: nat, before: string, n: nat, x: string) returns (p: nat)
    requires pos <= |f| && f[pos..] == before + (Bangs(n) + x) && Gap(before)
    requires x != "" && x[0] != '!' && !IsSpace(x[0])
    ensures p == pos + |before| + n && p < |f| && f[p..] == x && f[p] == x[0]
    ensures SkipSpace(f, pos) == p - n && SkipBangs(f, p - n) == p
  {
    hide SkipBangs, SkipSpace, Gap;
    BangsLength(n);
    var all := Bangs(n) + x;
    assert n == 0 ==> all == x;
    assert !IsSpace(all[0]);
    hide Bangs;
    SkipSpaceOf(f, pos, before, all);
    var start := pos + |before|;
    SkipBangsOf(f, start, n, x);
    p := start + n;
    assert f[p..] == f[start..][n..] == x;
    assert f[p] == f[p..][0];
  }

  lemma WordRead(f: string, pos: nat, p: nat, w: string, n: nat)
    requires IsFormula(f) && pos <= |f| && n <= p < |f| && PlainWord(w) && f[p] == w[0]
    requires SkipSpace(f, pos) == p - n && SkipBangs(f, p - n) == p
    requires SkipWord(f, p) == p + |w| <= |f| && f[p..p + |w|] == w
    ensures ParseValue(f, pos) == Parsed(Signed(Even(n), Matches(w)), p + |w|)
  {
    hide SkipBangs, SkipSpace, SkipWord, Even, Signed;
  }

  lemma WordValue(f: string, p: nat, w: string, rest: string)
    requires p <= |f| && f[p..] == w + rest && PlainWord(w)
    requires rest == "" || rest[0] == '!' || EndsWord(rest[0])
    ensures p + |w| <= |f| && At(f, p) == w[0] && f[p + |w|..] == rest
    ensures SkipWord(f, p) == p + |w| && f[p..p + |w|] == w
  {
    SkipWordOf(f, p, w, rest);
    assert f[p] == f[p..][0];
    assert f[p + |w|..] == f[p..][|w|..];
  }

  lemma {:induction false} BangsLength(n: nat)
    ensures |Bangs(n)| == n && forall k | 0 <= k < n :: Bangs(n)[k] == '!'
  {
    if n > 0 {
      BangsLength(n - 1);
    }
  }

  function Join(op: char, l: Tree, r: Tree): Tree {
    if op == '|' then Or(l, r) else And(l, r)
  }

  predicate Operator(c: char) {
    c == '&' || c == '|'
  }

  /** Behind blanks and words the next character is found. */
  lemma TokenBehind(f: string, p: nat, gap: string, words: string, rest: string)
    requires p <= |f| && f[p..] == gap + (words + rest) && Passed(gap, words)
    requires rest == "" || !(IsAlnum(rest[0]) || IsSpace(rest[0]))
    ensures var q := p + |gap| + |words|;
            q <= |f| && TokenAt(f, p) == q && f[q..] == rest && At(f, q) == if rest == "" then NUL else rest[0]
  {
    hide SkipWords, SkipSpace, Gap, OnlyWords;
    assert words == "" ==> words + rest == rest;
    SkipSpaceOf(f, p, gap, words + rest);
    var q := p + |gap|;
    if words != "" {
      assert f[q] == f[q..][0] == words[0];
      SkipWordsOf(f, q, words, rest);
    } else {
      assert q < |f| ==> f[q] == f[q..][0];
    }
    var e := q + |words|;
    assert e < |f| ==> f[e] == f[e..][0];
  }

  /** Behind blanks and words an operator or a closing parenthesis is found. */
  lemma TokenHere(f: string, p: nat, gap: string, words: string, c: char, tail: string)
    requires p <= |f| && f[p..] == gap + (words + ([c] + tail)) && Passed(gap, words) && (Operator(c) || c == ')')
    ensures var q := p + |gap| + |words|; q < |f| && f[q] == c && TokenAt(f, p) == q && f[q + 1..] == tail
  {
    hide TokenAt, Passed;
    TokenBehind(f, p, gap, words, [c] + tail);
    var q := p + |gap| + |words|;
    assert f[q + 1..] == f[q..][1..] == tail;
  }

  /** Blanks and words at the end of the formula end the reading. */
  lemma EndsBehind(f: string, p: nat, gap: string, words: string, left: Tree)
    requires IsFormula(f) && p <= |f| && f[p..] == gap + words && Passed(gap, words)
    ensures var r := ParseRest(f, p, left); r.tree == left && r.pos >= |f|
  {
    hide TokenAt, Passed, IsFormula;
    assert words + "" == words;
    TokenBehind(f, p, gap, words, "");
  }

  lemma BlanksAtEnd(f: string, p: nat, left: Tree)
    requires IsFormula(f) && p <= |f| && Gap(f[p..])
    ensures var r := ParseRest(f, p, left); r.tree == left && r.pos >= |f|
  {
    hide ParseRest, IsFormula, Gap;
    assert f[p..] + "" == f[p..];
    EndsBehind(f, p, f[p..], "", left);
  }

  /** Nothing is read behind the end. */
  lemma EndsAtEnd(f: string, p: nat, left: Tree)
    requires IsFormula(f) && |f| <= p <= |f| + 1
    ensures ParseRest(f, p, left) == Parsed(left, p)
  {
  }

  /** A left operand is all there is up to a closing parenthesis. */
  lemma Closed(f: string, p: nat, left: Tree)
    requires IsFormula(f) && p < |f| && TokenAt(f, p) < |f| && f[TokenAt(f, p)] == ')'
    ensures ParseRest(f, p, left) == Parsed(left, TokenAt(f, p) + 1)
  {
    hide TokenAt, IsFormula;
  }

  /** An operator takes as its right operand what the next call reads. */
  lemma Operand(f: string, p: nat, left: Tree, op: char)
    requires IsFormula(f) && p < |f| && TokenAt(f, p) < |f| && f[TokenAt(f, p)] == op && Operator(op)
    ensures var right := ParseWh(f, TokenAt(f, p) + 1);
            ParseRest(f, p, left) == ParseRest(f, right.pos, Join(op, left, right.tree))
  {
    hide TokenAt, IsFormula, ParseWh;
  }

  /** What is read of the text behind an item, and of the rest. */
  function RestOfItems(items: seq<Item>, ops: seq<char>, closed: string): string
    requires |items| == |ops| + 1
  {
    items[0].behind +
    (items[0].ignored + if ops == [] then closed else [ops[0]] + (Written(items[1..], ops[1..]) + closed))
  }

  lemma WrittenBefore(items: seq<Item>, ops: seq<char>, closed: string)
    requires |items| == |ops| + 1
    ensures Written(items, ops) + closed ==
            items[0].before + (Bangs(items[0].bangs) + (items[0].word + RestOfItems(items, ops, closed)))
  {
    hide Bangs;
  }

  lemma RestStarts(items: seq<Item>, ops: seq<char>, closed: string)
    requires Plain(items, ops) && (ops != [] || closed == "" || closed[0] == ')')
    ensures var rest := RestOfItems(items, ops, closed); rest == "" || EndsWord(rest[0])
  {
    hide PlainWord, Gap, Written, Passed;
    assert PlainItem(items[0]);
  }

  /** The first item is read, and what is behind it stands there. */
  lemma FirstItem(f: string, pos: nat, items: seq<Item>, ops: seq<char>, closed: string) returns (e: nat)
    requires IsFormula(f) && pos <= |f| && Plain(items, ops) && f[pos..] == Written(items, ops) + closed
    requires ops != [] || closed == "" || closed[0] == ')'
    ensures e <= |f| && f[e..] == RestOfItems(items, ops, closed)
    ensures ParseWh(f, pos) == ParseRest(f, e, ItemTree(items[0]))
  {
    hide Bangs, ParseValue, ParseRest, Written, IsFormula, ItemTree, PlainWord, Gap;
    WrittenBefore(items, ops, closed);
    RestStarts(items, ops, closed);
    ItemValue(f, pos, items[0], RestOfItems(items, ops, closed));
    e := pos + |items[0].before| + items[0].bangs + |items[0].word|;
  }

  /** The first operator is read; the next call starts behind it. */
  lemma FirstOperator(f: string, pos: nat, items: seq<Item>, ops: seq<char>, closed: string) returns (next: nat)
    requires IsFormula(f) && pos <= |f| && Plain(items, ops) && ops != []
    requires f[pos..] == Written(items, ops) + closed
    ensures next <= |f| && f[next..] == Written(items[1..], ops[1..]) + closed
    ensures var right := ParseWh(f, next);
            ParseWh(f, pos) == ParseRest(f, right.pos, Join(ops[0], ItemTree(items[0]), right.tree))
  {
    hide ParseRest, Written, IsFormula, ItemTree, PlainWord, Gap, ParseWh, TokenAt, Join;
    var e := FirstItem(f, pos, items, ops, closed);
    var gap, words := items[0].behind, items[0].ignored;
    assert Passed(gap, words);
    TokenHere(f, e, gap, words, ops[0], Written(items[1..], ops[1..]) + closed);
    Operand(f, e, ItemTree(items[0]), ops[0]);
    next := e + |gap| + |words| + 1;
  }

  /** A formula of plain words, each negated any number of times, joined by &
      and | without parentheses, with blanks before and behind words, means its
      operators grouped to the right. */
  lemma {:induction false} FlatMeaning(f: string, pos: nat, items: seq<Item>, ops: seq<char>)
    requires IsFormula(f) && Plain(items, ops) && pos <= |f| && f[pos..] == Written(items, ops)
    ensures var r := ParseWh(f, pos); r.tree == RightGrouped(items, ops) && r.pos >= |f|
    decreases |items|
  {
    hide ParseRest, Written, IsFormula, ItemTree, PlainWord, Gap, ParseWh;
    assert f[pos..] == Written(items, ops) + "";
    if ops == [] {
      var e := FirstItem(f, pos, items, ops, "");
      assert PlainItem(items[0]);
      assert f[e..] == items[0].behind + items[0].ignored;
      EndsBehind(f, e, items[0].behind, items[0].ignored, ItemTree(items[0]));
    } else {
      var next := FirstOperator(f, pos, items, ops, "");
      assert f[next..] == Written(items[1..], ops[1..]);
      FlatMeaning(f, next, items[1..], ops[1..]);
      var right := ParseWh(f, next);
      EndsAtEnd(f, right.pos, Join(ops[0], ItemTree(items[0]), right.tree));
    }
  }

  // ------------------------------------------------- the value of formulas

  /** The value of a plain formula: words that the text has, negated as often as
      there are marks, and operators from the right. */
  predicate Value(items: seq<Item>, ops: seq<char>, m: string -> bool)
    requires |items| == |ops| + 1
    decreases |items|
  {
    var first := if items[0].bangs % 2 == 0 then m(items[0].word) else !m(items[0].word);
    if ops == [] then first
    else if ops[0] == '|' then first || Value(items[1..], ops[1..], m)
    else first && Value(items[1..], ops[1..], m)
  }

  lemma ItemEval(item: Item, m: string -> bool)
    ensures Eval(ItemTree(item), m) == if item.bangs % 2 == 0 then m(item.word) else !m(item.word)
  {
  }

  lemma {:induction false} RightGroupedValue(items: seq<Item>, ops: seq<char>, m: string -> bool)
    requires |items| == |ops| + 1
    ensures Eval(RightGrouped(items, ops), m) == Value(items, ops, m)
    decreases |items|
  {
    hide ItemTree;
    ItemEval(items[0], m);
    if ops != [] {
      RightGroupedValue(items[1..], ops[1..], m);
    }
  }

  /** The value of a plain formula for a text. */
  lemma FormulaValue(f: string, items: seq<Item>, ops: seq<char>, m: string -> bool)
    requires IsFormula(f) && Plain(items, ops) && f == Written(items, ops)
    ensures Eval(TreeOf(f), m) == Value(items, ops, m)
  {
    hide ParseWh, Eval, Value, RightGrouped, PlainItem, IsFormula, Written;
    assert f[0..] == f;
    FlatMeaning(f, 0, items, ops);
    RightGroupedValue(items, ops, m);
  }

  // ------------------------------------------------------------ parentheses

  lemma OpensGroup(f: string, pos: nat, before: string, n: nat, group: string)
    requires IsFormula(f) && pos <= |f| && Gap(before) && f[pos..] == before + (Bangs(n) + ("(" + group))
    ensures var inner := pos + |before| + n + 1;
            && inner <= |f| && f[inner..] == group
            && var r := ParseWh(f, inner); ParseValue(f, pos) == Parsed(Signed(Even(n), r.tree), r.pos)
  {
    hide Bangs, ParseWh, IsFormula, SkipBangs, SkipSpace, Signed, Gap, Even;
    var p := MarksSkipped(f, pos, before, n, "(" + group);
    assert f[p + 1..] == f[p..][1..] == group;
  }

  /** A group with blanks and marks before it, and what stands behind it. */
  predicate IsGroup(f: string, pos: nat, before: string, n: nat, items: seq<Item>, ops: seq<char>, outer: string) {
    && IsFormula(f) && pos <= |f| && Plain(items, ops) && Gap(before)
    && f[pos..] == before + (Bangs(n) + ("(" + (Written(items, ops) + (")" + outer))))
  }

  /** Where reading stands behind a group. */
  function Behind(f: string, outer: string): nat
    requires |outer| <= |f|
  {
    |f| - |outer|
  }

  /** Read from inside a group of one operand: the operand, and the cursor
      behind the parenthesis. */
  lemma OneInGroup(f: string, pos: nat, items: seq<Item>, ops: seq<char>, outer: string)
    requires IsFormula(f) && pos <= |f| && Plain(items, ops) && |items| == 1
    requires f[pos..] == Written(items, ops) + (")" + outer)
    ensures |outer| <= |f| && f[Behind(f, outer)..] == outer
    ensures ParseWh(f, pos) == Parsed(ItemTree(items[0]), Behind(f, outer))
  {
    hide TokenAt, IsFormula, PlainWord, ParseRest, ItemTree, Written, Gap, ParseWh;
    var e := FirstItem(f, pos, items, ops, ")" + outer);
    assert PlainItem(items[0]);
    TokenHere(f, e, items[0].behind, items[0].ignored, ')', outer);
    Closed(f, e, ItemTree(items[0]));
  }

  /** A group of two or more operands with more behind it, as it is read: the
      call that reads the last but one operand reads on behind the parenthesis. */
  function Swallowed(items: seq<Item>, ops: seq<char>, op': char, rest: Tree): Tree
    requires |items| == |ops| + 1 >= 2
    decreases |items|
  {
    if |items| == 2 then Join(op', Join(ops[0], ItemTree(items[0]), ItemTree(items[1])), rest)
    else Join(ops[0], ItemTree(items[0]), Swallowed(items[1..], ops[1..], op', rest))
  }

  /** What stands behind a group: blanks, an operator and the rest. */
  lemma OnwardsFrom(f: string, e: nat, left: Tree, gap: string, op': char, outer: string)
    requires IsFormula(f) && e <= |f| && Gap(gap) && Operator(op') && f[e..] == gap + ([op'] + outer)
    ensures |outer| <= |f| && e + |gap| + 1 == Behind(f, outer)
    ensures var right := ParseWh(f, Behind(f, outer));
            right.pos >= |f| ==> ParseRest(f, e, left) == Parsed(Join(op', left, right.tree), right.pos)
  {
    hide TokenAt, IsFormula, ParseWh, ParseRest, Gap, Operator;
    assert "" + ([op'] + outer) == [op'] + outer;
    TokenHere(f, e, gap, "", op', outer);
    Operand(f, e, left, op');
    var right := ParseWh(f, Behind(f, outer));
    if right.pos >= |f| {
      EndsAtEnd(f, right.pos, Join(op', left, right.tree));
    }
  }

  lemma {:induction false} ReadsOn(f: string, pos: nat, items: seq<Item>, ops: seq<char>, gap: string, op': char,
                                   outer: string)
    requires IsFormula(f) && pos <= |f| && Plain(items, ops) && |items| >= 2 && Operator(op') && Gap(gap)
    requires f[pos..] == Written(items, ops) + (")" + (gap + ([op'] + outer))) && |outer| < |f|
    requires ParseWh(f, Behind(f, outer)).pos >= |f|
    ensures var r := ParseWh(f, pos);
            r.tree == Swallowed(items, ops, op', ParseWh(f, Behind(f, outer)).tree) && r.pos >= |f|
    decreases |items|
  {
    hide TokenAt, IsFormula, PlainItem, Join, ParseRest, ItemTree, Written, ParseWh, Operator, Gap;
    var next := FirstOperator(f, pos, items, ops, ")" + (gap + ([op'] + outer)));
    var rights, more := items[1..], ops[1..];
    if |items| == 2 {
      OneInGroup(f, next, rights, more, gap + ([op'] + outer));
      var e := Behind(f, gap + ([op'] + outer));
      OnwardsFrom(f, e, Join(ops[0], ItemTree(items[0]), ItemTree(items[1])), gap, op', outer);
    } else {
      ReadsOn(f, next, rights, more, gap, op', outer);
      var right := ParseWh(f, next);
      EndsAtEnd(f, right.pos, Join(ops[0], ItemTree(items[0]), right.tree));
    }
  }

  lemma EndsIn(f: string, pos: nat, inner: string, gap: string, op': char, outer: string)
    requires pos <= |f| && f[pos..] == inner + (")" + (gap + ([op'] + outer)))
    ensures |outer| < |f| && f[Behind(f, outer)..] == outer
  {
    var e := Behind(f, outer);
    assert f[e..] == f[pos..][e - pos..];
  }

  /** The closing parenthesis ends the call that reads the last operand of the
      group, not the one that opened it.  So the call for the operand before it
      takes what stands behind the parenthesis, and everything read so far, with
      its negation, takes that. */
  lemma GroupTakesTheRest(f: string, pos: nat, before: string, n: nat, items: seq<Item>, ops: seq<char>,
                          gap: string, op': char, items': seq<Item>, ops': seq<char>)
    requires |items'| == |ops'| + 1 && Gap(gap) && Operator(op') && Plain(items', ops') && |items| >= 2
    requires IsGroup(f, pos, before, n, items, ops, gap + ([op'] + Written(items', ops')))
    ensures ParseWh(f, pos).tree ==
            Signed(Even(n), Swallowed(items, ops, op', RightGrouped(items', ops')))
  {
    hide Bangs, Written, ParseRest, ParseValue, PlainItem, IsFormula, Signed, RightGrouped, ItemTree, Swallowed, Gap,
      Operator;
    var outer := Written(items', ops');
    var inner := pos + |before| + n + 1;
    OpensGroup(f, pos, before, n, Written(items, ops) + (")" + (gap + ([op'] + outer))));
    EndsIn(f, inner, Written(items, ops), gap, op', outer);
    FlatMeaning(f, Behind(f, outer), items', ops');
    ReadsOn(f, inner, items, ops, gap, op', outer);
    var r := ParseWh(f, inner);
    EndsAtEnd(f, r.pos, Signed(Even(n), r.tree));
  }

  lemma OneGrouped(items: seq<Item>, ops: seq<char>)
    requires |items| == |ops| + 1 == 1
    ensures RightGrouped(items, ops) == ItemTree(items[0])
  {
  }

  /** A group of one operand is read as it is meant. */
  lemma GroupOfOne(f: string, pos: nat, before: string, n: nat, items: seq<Item>, ops: seq<char>,
                   gap: string, op': char, items': seq<Item>, ops': seq<char>)
    requires |items'| == |ops'| + 1 && Gap(gap) && Operator(op') && Plain(items', ops') && |items| == 1
    requires IsGroup(f, pos, before, n, items, ops, gap + ([op'] + Written(items', ops')))
    ensures ParseWh(f, pos).tree ==
            Join(op', Signed(Even(n), RightGrouped(items, ops)), RightGrouped(items', ops'))
  {
    hide Bangs, Written, ParseRest, ParseValue, PlainItem, IsFormula, Signed, Join, ItemTree, RightGrouped, Operator,
      Gap;
    OneGrouped(items, ops);
    var outer := Written(items', ops');
    var inner := pos + |before| + n + 1;
    OpensGroup(f, pos, before, n, Written(items, ops) + (")" + (gap + ([op'] + outer))));
    OneInGroup(f, inner, items, ops, gap + ([op'] + outer));
    EndsIn(f, inner, Written(items, ops), gap, op', outer);
    FlatMeaning(f, Behind(f, outer), items', ops');
    OnwardsFrom(f, Behind(f, gap + ([op'] + outer)), Signed(Even(n), ItemTree(items[0])), gap, op', outer);
  }

  /** A group with only blanks behind it is read as it is meant. */
  lemma GroupAtEnd(f: string, pos: nat, before: string, n: nat, items: seq<Item>, ops: seq<char>, gap: string)
    requires IsGroup(f, pos, before, n, items, ops, gap) && Gap(gap)
    ensures ParseWh(f, pos).tree == Signed(Even(n), RightGrouped(items, ops))
  {
    hide Bangs, Written, ParseRest, ParseValue, PlainItem, IsFormula, Signed, RightGrouped, Gap;
    OpensGroup(f, pos, before, n, Written(items, ops) + (")" + gap));
    var inner := pos + |before| + n + 1;
    InsideAtEnd(f, inner, items, ops, gap);
    var r := ParseWh(f, inner);
    if r.pos >= |f| {
      EndsAtEnd(f, r.pos, Signed(Even(n), r.tree));
    } else {
      BlanksAtEnd(f, r.pos, Signed(Even(n), r.tree));
    }
  }

  lemma {:induction false} InsideAtEnd(f: string, pos: nat, items: seq<Item>, ops: seq<char>, gap: string)
    requires IsFormula(f) && pos <= |f| && Plain(items, ops) && Gap(gap)
    requires f[pos..] == Written(items, ops) + (")" + gap)
    ensures var r := ParseWh(f, pos);
            r.tree == RightGrouped(items, ops) && (r.pos < |f| ==> Gap(f[r.pos..]))
    decreases |items|
  {
    hide IsFormula, PlainItem, ParseRest, ItemTree, Written, ParseWh, Gap;
    if |items| == 1 {
      OneInGroup(f, pos, items, ops, gap);
    } else {
      var next := FirstOperator(f, pos, items, ops, ")" + gap);
      InsideAtEnd(f, next, items[1..], ops[1..], gap);
      var right := ParseWh(f, next);
      var tree := Join(ops[0], ItemTree(items[0]), right.tree);
      if right.pos >= |f| {
        EndsAtEnd(f, right.pos, tree);
      } else {
        BlanksAtEnd(f, right.pos, tree);
      }
    }
  }

  /** A negated group at the end of the formula has the value of what is in it,
      turned round as often as there are marks. */
  lemma GroupValue(f: string, before: string, n: nat, items: seq<Item>, ops: seq<char>, gap: string,
                   m: string -> bool)
    requires IsGroup(f, 0, before, n, items, ops, gap) && Gap(gap)
    ensures |items| == |ops| + 1
    ensures Eval(TreeOf(f), m) == if n % 2 == 0 then Value(items, ops, m) else !Value(items, ops, m)
  {
    hide ParseWh, Value, RightGrouped, IsFormula, Written, PlainItem, Gap;
    GroupAtEnd(f, 0, before, n, items, ops, gap);
    RightGroupedValue(items, ops, m);
  }

  /** What the parentheses are for: the group is one operand. */
  function Meant(n: nat, items: seq<Item>, ops: seq<char>, op': char, rest: Tree): Tree
    requires |items| == |ops| + 1
  {
    Join(op', Signed(Even(n), RightGrouped(items, ops)), rest)
  }

  /** A group with more behind it is read as it is meant exactly when it has one
      operand, or has two and is not negated. */
  lemma GroupReadAsMeantIff(f: string, pos: nat, before: string, n: nat, items: seq<Item>, ops: seq<char>,
                            gap: string, op': char, items': seq<Item>, ops': seq<char>)
    requires |items'| == |ops'| + 1 && Gap(gap) && Operator(op') && Plain(items', ops')
    requires IsGroup(f, pos, before, n, items, ops, gap + ([op'] + Written(items', ops')))
    ensures ParseWh(f, pos).tree == Meant(n, items, ops, op', RightGrouped(items', ops'))
            <==> |items| == 1 || (|items| == 2 && Even(n))
  {
    hide IsGroup, Written, ParseWh, IsFormula, Even, PlainItem, Gap;
    IsPlain(f, pos, before, n, items, ops, gap + ([op'] + Written(items', ops')));
    if |items| == 1 {
      GroupOfOne(f, pos, before, n, items, ops, gap, op', items', ops');
    } else {
      GroupTakesTheRest(f, pos, before, n, items, ops, gap, op', items', ops');
      assert |items| == 2 ==> RightGrouped(items[1..], ops[1..]) == ItemTree(items[1]);
    }
  }

  lemma IsPlain(f: string, pos: nat, before: string, n: nat, items: seq<Item>, ops: seq<char>, outer: string)
    requires IsGroup(f, pos, before, n, items, ops, outer)
    ensures |items| == |ops| + 1 && forall k | 0 <= k < |ops| :: Operator(ops[k])
  {
  }

  function Word(w: string): Item {
    Item("", 0, w, "", "")
  }

  /** So (a & b | c) | d finds no text without a. */
  lemma MisreadGroup(m: string -> bool)
    requires !m("a") && m("d")
    ensures !Eval(TreeOf("(a&b|c)|d"), m)
    ensures Value([Word("a"), Word("b"), Word("c")], ['&', '|'], m) || Value([Word("d")], [], m)
  {
    hide ParseWh, IsFormula;
    MisreadTree();
    ItemEval(Word("a"), m);
    ItemEval(Word("d"), m);
  }

  lemma MisreadTree()
    ensures IsFormula("(a&b|c)|d")
    ensures TreeOf("(a&b|c)|d") ==
            And(ItemTree(Word("a")), Or(Or(ItemTree(Word("b")), ItemTree(Word("c"))), ItemTree(Word("d"))))
  {
    hide ParseWh, ItemTree;
    var f := "(a&b|c)|d";
    var a, b, c, d := Word("a"), Word("b"), Word("c"), Word("d");
    WrittenTriple("a", '&', "b", '|', "c");
    OneWritten("d");
    MisreadIsGroup();
    GroupTakesTheRest(f, 0, "", 0, [a, b, c], ['&', '|'], "", '|', [d], []);
    hide Plain, IsGroup, Written;
    assert [a, b, c][1..] == [b, c] && ['&', '|'][1..] == ['|'];
    assert Swallowed([b, c], ['|'], '|', ItemTree(d)) == Or(Or(ItemTree(b), ItemTree(c)), ItemTree(d));
  }

  lemma MisreadIsGroup()
    ensures IsFormula("(a&b|c)|d") && Plain([Word("d")], [])
    ensures IsGroup("(a&b|c)|d", 0, "", 0, [Word("a"), Word("b"), Word("c")], ['&', '|'],
                    "" + (['|'] + Written([Word("d")], [])))
  {
    hide Written;
    WrittenTriple("a", '&', "b", '|', "c");
    OneWritten("d");
    assert "(a&b|c)|d"[0..] == "(a&b|c)|d";
  }

  lemma OneWritten(w: string)
    ensures Written([Word(w)], []) == w && RightGrouped([Word(w)], []) == ItemTree(Word(w))
  {
  }

  lemma TwoWritten(a: string, op: char, b: string)
    ensures Written([Word(a), Word(b)], [op]) == a + ([op] + b)
  {
    assert [Word(a), Word(b)][1..] == [Word(b)] && [op][1..] == [];
    OneWritten(b);
  }

  lemma WrittenTriple(a: string, op: char, b: string, op': char, c: string)
    ensures Written([Word(a), Word(b), Word(c)], [op, op']) == a + ([op] + (b + ([op'] + c)))
  {
    var items := [Word(a), Word(b), Word(c)];
    assert items[1..] == [Word(b), Word(c)] && [op, op'][1..] == [op'];
    TwoWritten(b, op', c);
  }

  /** Where an operand should stand and an operator or a blank does, or nothing
      does behind marks, the operand counts as false, whatever the marks. */
  lemma MissingOperandIsFalse(f: string, pos: nat, m: string -> bool)
    requires IsFormula(f) && pos <= |f|
    requires var start := SkipSpace(f, pos);
             var p := SkipBangs(f, start);
             if p == |f| then p > start else Operator(f[p]) || f[p] == ' '
    ensures !Eval(ParseValue(f, pos).tree, m)
  {
  }

  // ------------------------------------------------------------- blanks

  /** The character a reader takes for the operator is never a blank, so that
      a blank never joins two operands. */
  lemma TokenIsNoBlank(f: string, pos: nat)
    requires pos <= |f|
    ensures !IsSpace(At(f, TokenAt(f, pos)))
  {
    SpacesEnd(f, pos);
    WordsEnd(f, SkipSpace(f, pos));
  }

  lemma {:induction false} SpacesEnd(f: string, pos: nat)
    requires pos <= |f|
    ensures !IsSpace(At(f, SkipSpace(f, pos)))
    decreases |f| - pos
  {
    if pos < |f| && IsSpace(f[pos]) {
      SpacesEnd(f, pos + 1);
    }
  }

  lemma {:induction false} WordsEnd(f: string, pos: nat)
    requires pos <= |f|
    ensures var p := SkipWords(f, pos); p == |f| || !(IsAlnum(f[p]) || IsSpace(f[p]))
    decreases |f| - pos
  {
    if pos < |f| && (IsAlnum(f[pos]) || IsSpace(f[pos])) {
      WordsEnd(f, pos + 1);
    }
  }

  lemma TokenAmongWords(f: string, pos: nat)
    requires pos <= |f| && OnlyWords(f[pos..])
    ensures var p := TokenAt(f, pos); pos <= p <= |f| && (p == |f| || IsAlnum(f[p]))
  {
    SpacesEnd(f, pos);
    WordsEnd(f, SkipSpace(f, pos));
    var p := TokenAt(f, pos);
    if p < |f| {
      assert f[p] == f[pos..][p - pos];
    }
  }

  /** Words behind a blank are not looked for: a b means a. */
  lemma WordsBehindBlankIgnored(f: string, pos: nat, item: Item, words: string)
    requires IsFormula(f) && pos <= |f| && PlainWord(item.word) && Gap(item.before) && OnlyWords(words)
    requires f[pos..] == item.before + (Bangs(item.bangs) + (item.word + ([' '] + words)))
    ensures ParseWh(f, pos).tree == ItemTree(item)
  {
    hide Bangs, ParseValue, TokenAt, IsFormula, PlainWord, ItemTree, Gap;
    ItemValue(f, pos, item, [' '] + words);
    var e := pos + |item.before| + item.bangs + |item.word|;
    assert OnlyWords([' '] + words);
    TokenAmongWords(f, e);
  }

  /** An exclamation mark or an opening parenthesis behind a word ends the
      reading: what stands behind it is not looked at. */
  lemma WordThenMark(f: string, pos: nat, item: Item, c: char, rest: string)
    requires IsFormula(f) && pos <= |f| && PlainItem(item) && (c == '!' || c == '(')
    requires f[pos..] ==
             item.before + (Bangs(item.bangs) + (item.word + (item.behind + (item.ignored + ([c] + rest)))))
    ensures ParseWh(f, pos).tree == ItemTree(item)
  {
    hide Bangs, ParseValue, TokenAt, IsFormula, PlainWord, ItemTree, Gap, Passed, ParseRest;
    var behind := item.behind + (item.ignored + ([c] + rest));
    BehindStarts(item, [c] + rest);
    ItemValue(f, pos, item, behind);
    var e := pos + |item.before| + item.bangs + |item.word|;
    TokenBehind(f, e, item.behind, item.ignored, [c] + rest);
    OtherEnds(f, e, ItemTree(item));
  }

  lemma BehindStarts(item: Item, rest: string)
    requires PlainItem(item) && rest != ""
    ensures var behind := item.behind + (item.ignored + rest); behind[0] == ' ' || behind[0] == rest[0]
  {
    hide PlainWord, Gap, Passed;
    assert item.behind == "" ==> item.behind + (item.ignored + rest) == rest;
  }

  lemma OtherEnds(f: string, p: nat, left: Tree)
    requires IsFormula(f) && p <= |f|
    requires p < |f| ==> At(f, TokenAt(f, p)) != ' ' && !Operator(At(f, TokenAt(f, p)))
    ensures ParseRest(f, p, left).tree == left
  {
    hide TokenAt, IsFormula;
  }

  /** At the end of the formula or before a closing parenthesis an operand is the
      empty word. */
  lemma EmptyOperand(f: string, pos: nat, m: string -> bool)
    requires IsFormula(f) && pos <= |f|
    requires var start := SkipSpace(f, pos);
             var p := SkipBangs(f, start);
             if p == |f| then p == start else f[p] == ')'
    ensures var n := SkipBangs(f, SkipSpace(f, pos)) - SkipSpace(f, pos);
            Eval(ParseValue(f, pos).tree, m) == if n % 2 == 0 then m("") else !m("")
  {
  }
}

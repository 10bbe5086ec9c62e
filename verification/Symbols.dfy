// Symbol lookup in one module: from a name to a run-time address, and from an address to a function name.
module Symbols {
  import opened Common

  datatype Symbol = Symbol(name: string, value: Address, size: Address)

  function ToRuntime(base: Address, address: Address): Address {
    Wrap(base + address)
  }

  function ToDwarf(base: Address, address: Address): Address {
    Wrap(address - base)
  }

  /** The symbol's range holds the address; a symbol without size holds everything from its value on. */
  predicate Covers(s: Symbol, relative: Address) {
    s.value <= relative && (s.size == 0 || relative < Wrap(s.value + s.size))
  }

  /** symbols[k] covers the address and starts last among those that do, the first such in the table. */
  ghost predicate Closest(symbols: seq<Symbol>, relative: Address, k: nat) {
    && k < |symbols| && Covers(symbols[k], relative)
    && (forall j | 0 <= j < |symbols| && Covers(symbols[j], relative) :: symbols[j].value <= symbols[k].value)
    && (forall j | 0 <= j < k && Covers(symbols[j], relative) :: symbols[j].value < symbols[k].value)
  }

  ghost predicate Uncovered(symbols: seq<Symbol>, relative: Address) {
    forall j | 0 <= j < |symbols| :: !Covers(symbols[j], relative)
  }

  /** The first symbol of that name. */
  ghost predicate FirstNamed(symbols: seq<Symbol>, name: string, k: nat) {
    k < |symbols| && symbols[k].name == name && forall j | 0 <= j < k :: symbols[j].name != name
  }

  method SymbolAddress(symbols: seq<Symbol>, base: Address, name: string) returns (r: Option<Address>)
    ensures r.Some? ==>
              exists k: nat :: FirstNamed(symbols, name, k) && r.value == ToRuntime(base, symbols[k].value)
    ensures r.None? ==> forall j | 0 <= j < |symbols| :: symbols[j].name != name
  {
    for i := 0 to |symbols|
      invariant forall j | 0 <= j < i :: symbols[j].name != name
    {
      if symbols[i].name == name {
        assert FirstNamed(symbols, name, i);
        return Some(ToRuntime(base, symbols[i].value));
      }
    }
    r := None;
  }

  method Function(symbols: seq<Symbol>, base: Address, address: Address) returns (r: string)
    ensures var relative := ToDwarf(base, address);
            if Uncovered(symbols, relative) then r == ""
            else exists k: nat :: Closest(symbols, relative, k) && r == symbols[k].name
  {
    var relative := ToDwarf(base, address);
    var closest: Option<Symbol> := None;
    ghost var k: nat := 0;
    for i := 0 to |symbols|
      invariant closest.None? ==> forall j | 0 <= j < i :: !Covers(symbols[j], relative)
      invariant closest.Some? ==> k < i && closest.value == symbols[k] && Closest(symbols[..i], relative, k)
    {
      var symbol := symbols[i];
      if symbol.value <= relative && (symbol.size == 0 || relative < Wrap(symbol.value + symbol.size)) &&
         (closest.None? || symbol.value > closest.value.value)
      {
        closest, k := Some(symbol), i;
      }
    }
    assert symbols[..|symbols|] == symbols;
    r := if closest.None? then "" else closest.value.name;
  }

  /** There is at most one closest symbol, so what function() names is determined. */
  lemma ClosestIsUnique(symbols: seq<Symbol>, relative: Address, k: nat, l: nat)
    requires Closest(symbols, relative, k) && Closest(symbols, relative, l)
    ensures k == l
  {
  }

  /** A range is closed at its start and open at its end; without a size it has no end. */
  lemma CoversMeans(s: Symbol, relative: Address)
    requires s.value + s.size < 0x1_0000_0000_0000_0000
    ensures s.size > 0 ==> (Covers(s, relative) <==> s.value <= relative < s.value + s.size)
    ensures s.size == 0 ==> (Covers(s, relative) <==> s.value <= relative)
  {
  }

  /** In a table of two functions, addresses inside, between and behind their ranges. */
  lemma CoversByExample()
    ensures var symbols := [Symbol("f", 0x1000, 0x10), Symbol("g", 0x1020, 0)];
            && Closest(symbols, ToDwarf(0x7000_0000, 0x7000_100f), 0)
            && Uncovered(symbols, ToDwarf(0x7000_0000, 0x7000_1010))
            && Closest(symbols, ToDwarf(0x7000_0000, 0x7000_9000), 1)
            && ToRuntime(0x7000_0000, 0x1000) == 0x7000_1000
  {
  }

  lemma DwarfOfRuntime(base: Address, value: Address)
    ensures ToDwarf(base, ToRuntime(base, value)) == value
  {
  }

  /** The range does not reach the end of the address space. */
  predicate FitsBelowTop(s: Symbol) {
    s.size == 0 || s.value + s.size < ADDRESS_SPACE
  }

  lemma CoversItself(s: Symbol)
    ensures Covers(s, s.value) <==> FitsBelowTop(s)
  {
  }

  /**
   * Looking up the address of a symbol: function() names a symbol that starts exactly there if and only if some
   * symbol at that value has a range that fits.
   */
  lemma FunctionOfSymbol(symbols: seq<Symbol>, base: Address, value: Address)
    ensures var relative := ToDwarf(base, ToRuntime(base, value));
            (exists l: nat :: Closest(symbols, relative, l) && symbols[l].value == value) <==>
            (exists j: nat :: j < |symbols| && symbols[j].value == value && FitsBelowTop(symbols[j]))
  {
    DwarfOfRuntime(base, value);
    if l: nat :| Closest(symbols, value, l) && symbols[l].value == value {
      CoversItself(symbols[l]);
    }
    if j: nat :| j < |symbols| && symbols[j].value == value && FitsBelowTop(symbols[j]) {
      CoversItself(symbols[j]);
      var l := FirstAt(symbols, value, j);
    }
  }

  /** A symbol whose range ends with the address space does not cover even its own value. */
  lemma SymbolAtTheTop()
    ensures var top := Symbol("top", ADDRESS_SPACE - 16, 16);
            Uncovered([top], ToDwarf(0, ToRuntime(0, top.value)))
  {
  }

  /** The symbol that symbol() finds comes back under its own name, if its range fits and nothing else starts there. */
  lemma FunctionOfSymbolIsItself(symbols: seq<Symbol>, base: Address, name: string, k: nat, l: nat)
    requires FirstNamed(symbols, name, k) && FitsBelowTop(symbols[k])
    requires forall j | 0 <= j < |symbols| && symbols[j].value == symbols[k].value :: symbols[j].name == name
    requires Closest(symbols, ToDwarf(base, ToRuntime(base, symbols[k].value)), l)
    ensures symbols[l].name == name && symbols[l].value == symbols[k].value
  {
    DwarfOfRuntime(base, symbols[k].value);
    CoversItself(symbols[k]);
  }

  /** If some symbol starting at the address covers it, the first such symbol is the closest. */
  lemma {:induction false} FirstAt(symbols: seq<Symbol>, relative: Address, j: nat) returns (l: nat)
    requires j < |symbols| && symbols[j].value == relative && Covers(symbols[j], relative)
    ensures Closest(symbols, relative, l) && symbols[l].value == relative
  {
    if i :| 0 <= i < j && symbols[i].value == relative && Covers(symbols[i], relative) {
      l := FirstAt(symbols, relative, i);
    } else {
      l := j;
    }
  }
}

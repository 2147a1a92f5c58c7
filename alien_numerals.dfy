/** A model of the Alien Numeral converter: a Roman-numeral-like system of seven
    symbols whose strings are turned into integers by a left-to-right scan with
    one symbol of look-ahead, and a check that a string uses only known symbols.

    The converter object has no state of its own (its constructor does nothing and
    the symbol table is a class-level constant), so the model is a module: the table
    is a constant map, the membership check a function, and the conversion loop a
    method proved against the recursive specification function `Value`. */
module AlienNumeralConverter {

  /** What a call to the converter produces: an integer, or the exception that
      the conversion raises. */
  datatype Outcome =
    | Ok(value: int)
    | KeyError(key: char)  // a character that is not a key of the symbol table was looked up
    | IndexError           // the last character of the empty string was asked for

  /** The symbol table: each of the seven symbols and its value. */
  const SymbolValues: map<char, int> :=
    map['A' := 1, 'B' := 5, 'Z' := 10, 'L' := 50, 'C' := 100, 'D' := 500, 'R' := 1000]

  /** The symbols in their canonical order, smallest value first. */
  const Ascending: string := "ABZLCDR"

  /** The table's value of one known symbol. */
  function ValueOf(c: char): (v: int)
    requires c in SymbolValues
    ensures v > 0
  {
    SymbolValues[c]
  }

  /** The table holds exactly the seven symbols, and their values increase
      strictly in the canonical order. */
  lemma SymbolTable()
    ensures SymbolValues.Keys == {'A', 'B', 'Z', 'L', 'C', 'D', 'R'}
    ensures |Ascending| == |SymbolValues|
    ensures forall i | 0 <= i < |Ascending| :: Ascending[i] in SymbolValues
    ensures forall i, j | 0 <= i < j < |Ascending| :: ValueOf(Ascending[i]) < ValueOf(Ascending[j])
  {
  }

  /** Of two symbols, the larger value is at least twice the smaller one. This is
      what keeps every conversion positive (see the contract of `Value`). */
  lemma SubtractiveGap(small: char, large: char)
    requires small in SymbolValues && large in SymbolValues
    ensures ValueOf(small) < ValueOf(large) ==> 2 * ValueOf(small) <= ValueOf(large)
  {
  }

  // ---------------------------------------------------------------------------
  // The membership check

  /** True iff every character of `s` is a key of the symbol table; in particular
      true of the empty string. The recursion visits the characters in order, as
      `is_valid`'s `all(...)` in main.py does. */
  function IsValid(s: string): (b: bool)
    ensures b <==> forall i | 0 <= i < |s| :: s[i] in SymbolValues
  {
    s == [] || (s[0] in SymbolValues && IsValid(s[1..]))
  }

  /** A string is valid iff both of its parts are. */
  lemma {:induction false} IsValidConcat(s: string, t: string)
    ensures IsValid(s + t) <==> IsValid(s) && IsValid(t)
  {
    var st := s + t;
    assert forall i | 0 <= i < |s| :: st[i] == s[i];
    assert forall i | 0 <= i < |t| :: st[|s| + i] == t[i];
  }

  /** The position of the first character of `s` that is not a symbol. */
  function FirstUnknown(s: string): (k: nat)
    requires !IsValid(s)
    ensures k < |s| && s[k] !in SymbolValues
    ensures forall j | 0 <= j < k :: s[j] in SymbolValues
  {
    if s[0] !in SymbolValues then 0 else 1 + FirstUnknown(s[1..])
  }

  // ---------------------------------------------------------------------------
  // The resolver's specification

  /** What a symbol `c` followed by the symbol `next` adds to the total: minus its
      value when `next` is worth strictly more, plus its value otherwise. */
  function Signed(c: char, next: char): (r: int)
    requires c in SymbolValues && next in SymbolValues
    ensures r == ValueOf(c) || r == -ValueOf(c)
    ensures r < 0 <==> ValueOf(c) < ValueOf(next)
  {
    if ValueOf(c) < ValueOf(next) then -ValueOf(c) else ValueOf(c)
  }

  /** The sum of the values of the symbols of `s`, ignoring their order. */
  function PlainSum(s: string): (r: int)
    requires IsValid(s)
  {
    if s == [] then 0 else ValueOf(s[0]) + PlainSum(s[1..])
  }

  /** The value of a non-empty valid string: every symbol but the last adds or
      subtracts its value depending on its successor, the last one adds its value.
      The result is at least the first symbol's value (so always positive) and at
      most the plain sum of the values. */
  function Value(s: string): (r: int)
    requires s != [] && IsValid(s)
    ensures ValueOf(s[0]) <= r <= PlainSum(s)
  {
    if |s| == 1 then ValueOf(s[0])
    else
      var rest := Value(s[1..]);
      SubtractiveGap(s[0], s[1]);
      Signed(s[0], s[1]) + rest
  }

  /** The last symbol of a non-empty string. */
  function Last(s: string): char
    requires s != []
  {
    s[|s| - 1]
  }

  /** Appending a symbol changes only the role of the old last symbol (which now
      has a successor) and adds the new one: this is the step of the scan. */
  lemma {:induction false} ValueAppend(s: string, c: char)
    requires s != [] && IsValid(s) && c in SymbolValues
    ensures IsValid(s + [c])
    ensures Value(s + [c]) == Value(s) - ValueOf(Last(s)) + Signed(Last(s), c) + ValueOf(c)
  {
    IsValidConcat(s, [c]);
    if |s| > 1 {
      assert (s + [c])[1..] == s[1..] + [c];
      ValueAppend(s[1..], c);
    }
  }

  /** The signed contribution of position `i` of `s`: minus the symbol's value when
      a successor exists and is worth strictly more, plus its value otherwise (the
      last symbol always counts plus). */
  function Contribution(s: string, i: nat): (r: int)
    requires IsValid(s) && i < |s|
    ensures r == ValueOf(s[i]) || r == -ValueOf(s[i])
    ensures r < 0 <==> i + 1 < |s| && ValueOf(s[i]) < ValueOf(s[i + 1])
  {
    if i + 1 < |s| && ValueOf(s[i]) < ValueOf(s[i + 1]) then -ValueOf(s[i]) else ValueOf(s[i])
  }

  /** The sum of the contributions of positions `k` to the end of `s`. */
  function ContributionsFrom(s: string, k: nat): int
    requires IsValid(s) && k <= |s|
    decreases |s| - k
  {
    if k == |s| then 0 else Contribution(s, k) + ContributionsFrom(s, k + 1)
  }

  /** The value of every non-empty suffix is the sum of its positions'
      contributions, each computed in the whole string. */
  lemma {:induction false} SuffixValue(s: string, k: nat)
    requires IsValid(s) && k < |s|
    ensures IsValid(s[k..]) && Value(s[k..]) == ContributionsFrom(s, k)
    decreases |s| - k
  {
    if k + 1 < |s| {
      SuffixValue(s, k + 1);
      assert s[k..][1..] == s[k + 1..];
    }
  }

  /** The value of a string is the sum, over all its positions, of the signed
      contributions described at `Contribution`. */
  lemma ValueIsSumOfContributions(s: string)
    requires s != [] && IsValid(s)
    ensures Value(s) == ContributionsFrom(s, 0)
  {
    SuffixValue(s, 0);
    assert s[0..] == s;
  }

  /** The values of `s` never increase from one symbol to the next. */
  predicate NonIncreasing(s: string)
    requires IsValid(s)
  {
    forall i | 0 <= i < |s| - 1 :: ValueOf(s[i]) >= ValueOf(s[i + 1])
  }

  /** A string is worth the plain sum of its symbols exactly when its values never
      increase, that is, when no symbol is subtracted. */
  lemma {:induction false} PlainSumIffNonIncreasing(s: string)
    requires s != [] && IsValid(s)
    ensures Value(s) == PlainSum(s) <==> NonIncreasing(s)
  {
    if |s| > 1 {
      var t := s[1..];
      PlainSumIffNonIncreasing(t);
      assert NonIncreasing(s) <==> ValueOf(s[0]) >= ValueOf(s[1]) && NonIncreasing(t) by {
        assert forall i | 0 <= i < |t| :: t[i] == s[i + 1];
      }
    }
  }

  // ---------------------------------------------------------------------------
  // The resolver

  /** Converts `s` by a single left-to-right pass that compares each symbol with
      the next one, then adds the last symbol. The empty string fails on its last
      character; an unknown character fails on the first lookup of it, which is
      the lookup of the first unknown position. */
  method ToInteger(s: string) returns (r: Outcome)
    ensures s == [] ==> r == IndexError
    ensures s != [] && !IsValid(s) ==> r == KeyError(s[FirstUnknown(s)])
    ensures s != [] && IsValid(s) ==> r == Ok(Value(s))
  {
    var total := 0;
    var i := 0;
    while i + 1 < |s|
      invariant i == 0 || i < |s|
      invariant forall j | 0 <= j < i :: s[j] in SymbolValues
      invariant i > 0 ==> s[i] in SymbolValues && IsValid(s[..i + 1])
      invariant i == 0 ==> total == 0
      invariant i > 0 ==> total + ValueOf(s[i]) == Value(s[..i + 1])
    {
      if s[i] !in SymbolValues {
        return KeyError(s[i]);
      }
      var current := SymbolValues[s[i]];
      if s[i + 1] !in SymbolValues {
        return KeyError(s[i + 1]);
      }
      var next := SymbolValues[s[i + 1]];
      if i > 0 {
        ValueAppend(s[..i + 1], s[i + 1]);
        assert s[..i + 1] + [s[i + 1]] == s[..i + 2];
      } else {
        assert s[..2] == [s[0], s[1]] && s[..2][1..] == [s[1]];
      }
      if current < next {
        total := total - current;
      } else {
        total := total + current;
      }
      i := i + 1;
    }
    if |s| == 0 {
      return IndexError;
    }
    if s[|s| - 1] !in SymbolValues {
      return KeyError(s[|s| - 1]);
    }
    total := total + SymbolValues[s[|s| - 1]];
    assert s[..i + 1] == s;
    r := Ok(total);
  }

  // ---------------------------------------------------------------------------
  // Worked examples

  /** A single symbol is worth its table value. */
  lemma SingleSymbol(c: char)
    requires c in SymbolValues
    ensures IsValid([c]) && Value([c]) == SymbolValues[c]
  {
  }

  /** The three conversions the converter's documentation and its demonstration
      check. */
  lemma DocumentedExamples()
    ensures Value("AAA") == 3
    ensures Value("LBAAA") == 58
    ensures Value("RCRZCAB") == 1994
  {
  }

  /** The further conversions the demonstration lists. For "RCRZ" its comment
      says 1990, but the scan gives 1000 - 100 + 1000 + 10. */
  lemma DemonstrationExamples()
    ensures Value("A") == 1 && Value("B") == 5 && Value("Z") == 10 && Value("R") == 1000
    ensures Value("AB") == 4 && Value("BA") == 6 && Value("AA") == 2 && Value("RR") == 2000
    ensures Value("CDZCAB") == 494
    ensures Value("RCRZ") == 1910
  {
  }

  /** The membership check on its documented examples and on the empty string. */
  lemma MembershipExamples()
    ensures IsValid("ABC")
    ensures !IsValid("XYZ") && FirstUnknown("XYZ") == 0
    ensures IsValid("")
  {
  }
}

# Alien Numerals converter, modelled in Dafny

This project models the `AlienNumeralConverter` of the Alien Numerals Calculation
App. Alien numerals work like Roman numerals and use seven symbols: A=1, B=5, Z=10,
L=50, C=100, D=500 and R=1000. The converter has three parts:

- **Symbol table** (`SYMBOL_VALUES`). This is a constant map. The model keeps it as
  the constant `SymbolValues` and proves its shape in `SymbolTable`.
- **Resolver** (`to_integer`). It makes one left-to-right pass with one symbol of
  look-ahead. Each symbol except the last is subtracted from the running total when
  the next symbol is worth strictly more, and added otherwise. The last symbol is
  always added. The model has the loop as the method `ToInteger`. It is proved
  against the recursive specification function `Value`.
- **Membership check** (`is_valid`). It holds when every character is a key of the
  table. The model has it as the function `IsValid`.

The converter object has no state of its own: its constructor does nothing and the
table belongs to the class. So the model is one module, `AlienNumeralConverter`,
in `alien_numerals.dfy`, and has no Dafny class.

`ToInteger` models the exceptions `to_integer` raises with the `Outcome` datatype:

- The empty string gives `IndexError`. The loop does not run, and `s[-1]` fails.
- A string with an unknown character gives `KeyError` naming its first unknown
  character. The loop looks up position 0, then 1, 1, 2, 2, and so on, and the
  final lookup reads the last position. So the first lookup that fails is always
  the one for the leftmost unknown position.
- Any other string gives `Ok(Value(s))`.

`Value` itself requires a non-empty string of symbols.

The resolver's contract says more than the bare loop:

- The result is at least the first symbol's value, so it is always positive.
- The result is at most the plain sum of the symbol values.
- The result equals the plain sum exactly when the values never increase from
  left to right.

The lower bound holds because this table has a gap property: whenever one symbol
is worth more than another, it is worth at least twice as much (`SubtractiveGap`).

The demonstration list comments that "RCRZ" is worth 1990 (`main.py:175`). The code
computes 1000 - 100 + 1000 + 10 = 1910, and the model proves 1910
(`DemonstrationExamples`). This is a wrong comment in the demonstration data, not
a fault of the resolver.

## Model

| member | source | states |
|---|---|---|
| `AlienNumeralConverter.ValueOf` | main.py:33-41 | every symbol in the table has a positive value |
| `AlienNumeralConverter.SymbolTable` | main.py:33-41 | the table's keys are exactly A, B, Z, L, C, D, R, and their values increase strictly in that order |
| `AlienNumeralConverter.SubtractiveGap` | main.py:33-41 | of two symbols, the one with the larger value is worth at least twice the other |
| `AlienNumeralConverter.IsValid` | main.py:95-112 | true iff every character of the string is a key of the table, so also true of the empty string |
| `AlienNumeralConverter.IsValidConcat` | main.py:112 | a concatenation passes the membership check iff both parts do |
| `AlienNumeralConverter.MembershipExamples` | main.py:105-112 | "ABC" passes, "XYZ" fails at its first character, "" passes |
| `AlienNumeralConverter.FirstUnknown` | main.py:84-85 | the leftmost position whose character is not in the table; every earlier character is in it |
| `AlienNumeralConverter.Signed` | main.py:84-90 | a symbol followed by another adds plus or minus its own value, and the sign is negative iff the next symbol is worth strictly more |
| `AlienNumeralConverter.Contribution` | main.py:83-92 | position i adds exactly minus its value when it has a successor worth strictly more, and plus its value otherwise; the last position always adds plus |
| `AlienNumeralConverter.Value` | main.py:82-93 | the value of a non-empty string of symbols lies between its first symbol's value (so it is positive) and the plain sum of its symbol values |
| `AlienNumeralConverter.ValueAppend` | main.py:83-92 | appending a symbol flips at most the sign of the old last symbol and adds the new symbol's value; this is the step of the scan |
| `AlienNumeralConverter.SuffixValue` | main.py:83-92 | every non-empty suffix is worth the sum of its positions' contributions, each judged against its successor in the whole string |
| `AlienNumeralConverter.ValueIsSumOfContributions` | main.py:82-93 | a string's value is the sum of the signed contributions of all its positions |
| `AlienNumeralConverter.PlainSumIffNonIncreasing` | main.py:87-92 | the value equals the plain sum of the symbol values iff the values never increase from left to right |
| `AlienNumeralConverter.ToInteger` | main.py:52-93 | the scan's result: IndexError on the empty string, KeyError naming the leftmost unknown character, and otherwise the value of the string |
| `AlienNumeralConverter.SingleSymbol` | main.py:82-93 | a one-symbol string is worth that symbol's table value |
| `AlienNumeralConverter.DocumentedExamples` | main.py:145-149 | "AAA" is 3, "LBAAA" is 58, "RCRZCAB" is 1994 |
| `AlienNumeralConverter.DemonstrationExamples` | main.py:166-177 | A=1, B=5, AB=4, BA=6, Z=10, AA=2, R=1000, RR=2000, CDZCAB=494, and RCRZ=1910 (not the 1990 its comment gives) |

## Left out

- `main()` (main.py:128-202) is not modelled. It prints the demonstration, reads console input in a loop, uppercases and strips that input, and handles keyboard interrupts. All of this is console I/O.
- `get_symbol_info` (main.py:114-125) is not modelled. It only formats the table for display.
- `to_integer` checks nothing beyond symbol membership. It accepts any string of known symbols, for example "AAAA" or "AL". The program has no repetition or pairing rules, so the model has none.
- `__init__` (main.py:43-50) is not modelled because it does nothing.
- The `SUBTRACTION_CASES` attribute named in the class docstring (main.py:21) is not modelled because the code does not define it.
- Python's `str` holds Unicode code points, and the model uses Dafny's `char`. Only membership of single characters in the table matters, so no encoding question arises.

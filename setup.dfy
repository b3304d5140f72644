/** One attempt of each setup prompt: a player's name (main.py:38-48) and
    the pair of symbols (main.py:50-81). */
module Setup {
  import opened Results
  import opened Board
  import opened Text

  /** Why a name was refused: it is all digits, or shorter than two
      characters. */
  datatype NameError = NumericName | TooShort

  /** One pass of get_player_name's loop: strip, refuse a number, refuse a
      name shorter than two characters. */
  function AcceptName(raw: string): (r: Result<string, NameError>)
    ensures r.Ok? <==> |Strip(raw)| >= 2 && !IsDigits(Strip(raw))
    ensures r.Ok? ==> r.value == Strip(raw)
    ensures r == Err(NumericName) <==> IsDigits(Strip(raw))
  {
    var name := Strip(raw);
    if IsDigits(name) then Err(NumericName)
    else if |name| < 2 then Err(TooShort)
    else Ok(name)
  }

  /** An accepted name is accepted again, unchanged. */
  lemma AcceptedNameStable(raw: string)
    requires AcceptName(raw).Ok?
    ensures AcceptName(AcceptName(raw).value) == AcceptName(raw)
  {
    StripStripped(raw);
  }

  /** The symbols palette that an empty answer draws from. */
  const Palette: seq<Symbol> := [
    "X", "O", "@", "#", "$", "%", "&", "*", "+", "=", "!", "?",
    "\U{2764}", "\U{2605}", "\U{2600}", "\U{2601}", "\U{2602}", "\U{2615}",
    "\U{2618}", "\U{2660}", "\U{2663}", "\U{2665}", "\U{2666}", "\U{265F}",
    "\U{26A1}", "\U{1F525}", "\U{1F48E}", "\U{1F319}", "\U{1F338}", "\U{1F340}",
    "\U{1F34E}", "\U{1F355}", "\U{1F3B5}", "\U{1F3AF}", "\U{1F680}", "\U{1FA90}"
  ]

  /** Every palette entry is a single character other than "0". */
  lemma PaletteValid()
    ensures |Palette| == 36
    ensures forall i | 0 <= i < |Palette| :: |Palette[i]| == 1 && Palette[i] != "0"
  {
  }

  /** Why a pair of symbols was refused: the same symbol twice, a symbol
      longer than one character, or the reserved "0". */
  datatype SymbolError = SameSymbols | NotSingleChar | ReservedSymbol

  /** The symbol an answer stands for: the stripped answer, or the palette
      pick when nothing was typed. */
  function Resolve(raw: string, pick: Symbol): (s: Symbol)
    requires pick in Palette
    ensures s != []
    ensures Strip(raw) != [] ==> s == Strip(raw)
    ensures Strip(raw) == [] ==> s == pick
  {
    PaletteValid();
    var s := Strip(raw);
    if s == "" then pick else s
  }

  /** One pass of choose_symbols' loop; pick1 and pick2 stand for the
      palette entries random_symbol would draw. */
  function ChooseSymbols(raw1: string, raw2: string, pick1: Symbol, pick2: Symbol)
    : (r: Result<(Symbol, Symbol), SymbolError>)
    requires pick1 in Palette && pick2 in Palette
    ensures r.Ok? ==> r.value.0 != r.value.1
    ensures r.Ok? ==> |r.value.0| == 1 && |r.value.1| == 1
    ensures r.Ok? ==> r.value.0 != "0" && r.value.1 != "0"
    ensures r.Ok? ==> r.value == (Resolve(raw1, pick1), Resolve(raw2, pick2))
    ensures r == Err(SameSymbols) <==> Resolve(raw1, pick1) == Resolve(raw2, pick2)
    ensures r == Err(NotSingleChar) <==>
      Resolve(raw1, pick1) != Resolve(raw2, pick2) && (|Resolve(raw1, pick1)| > 1 || |Resolve(raw2, pick2)| > 1)
    ensures r.Ok? <==> var (s1, s2) := (Resolve(raw1, pick1), Resolve(raw2, pick2));
      s1 != s2 && |s1| == 1 && |s2| == 1 && s1 != "0" && s2 != "0"
  {
    var s1 := Resolve(raw1, pick1);
    var s2 := Resolve(raw2, pick2);
    if s1 == s2 then Err(SameSymbols)
    else if |s1| > 1 || |s2| > 1 then Err(NotSingleChar)
    else if s1 != "0" && s2 != "0" then Ok((s1, s2))
    else Err(ReservedSymbol)
  }

  /** Two empty answers are accepted whenever the two palette draws differ:
      the random fallback never yields a refused symbol. */
  lemma RandomFallbackAccepted(pick1: Symbol, pick2: Symbol)
    requires pick1 in Palette && pick2 in Palette
    ensures ChooseSymbols("", "", pick1, pick2)
      == if pick1 == pick2 then Err(SameSymbols) else Ok((pick1, pick2))
  {
    PaletteValid();
    assert Strip("") == "";
  }
}

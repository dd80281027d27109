/** Assets in text form: parsing, printing, and the denomination on the native chain. */
module Assets {
  import opened Results
  import opened Text

  datatype Asset = Asset(chain: string, symbol: string, ticker: string, synth: bool, trade: bool, secured: bool)

  const NO_ASSET := Asset("", "", "", false, false, false)
  const SWITCHLY_CHAIN := "SWITCHLY"
  const SWITCH_NATIVE := Native1("SWITCH")
  const RUJI := Native1("RUJI")
  const SWCY := Native1("SWCY")
  const SWITCHLY := Native1("SWITCHLY")

  function Native1(symbol: string): Asset {
    Asset(SWITCHLY_CHAIN, symbol, symbol, false, false, false)
  }

  datatype AssetError = InvalidChain | InvalidSymbol | InvalidTicker

  // ----- chains, symbols, tickers -----

  predicate ValidChain(c: string) {
    3 <= |c| <= 10 && forall k :: 0 <= k < |c| ==> 'A' <= c[k] <= 'Z'
  }

  function NewChain(chainID: string): Result<string, AssetError> {
    var chain := Upper(chainID);
    if ValidChain(chain) then Ok(chain) else Err(InvalidChain)
  }

  predicate SymbolChar(c: char) {
    'A' <= c <= 'Z' || 'a' <= c <= 'z' || '0' <= c <= '9' || c == '-' || c == '.' || c == '_'
  }

  predicate IsAlphaNumeric(s: string) {
    |s| > 0 && forall k :: 0 <= k < |s| ==> SymbolChar(s[k])
  }

  function NewSymbol(input: string): Result<string, AssetError> {
    if IsAlphaNumeric(input) then Ok(Upper(input)) else Err(InvalidSymbol)
  }

  function NewTicker(ticker: string): Result<string, AssetError> {
    if |ticker| == 0 then Err(InvalidTicker)
    else if ByteLen(ticker) > 13 then Err(InvalidTicker)
    else if '/' in ticker then Err(InvalidTicker)
    else Ok(Upper(ticker))
  }

  // ----- parsing and printing -----

  const SEPARATORS := {'~', '.', '/', '-'}

  /** What the parser takes for the ticker: the symbol up to its first dash. */
  function TickerPart(sym: string): string {
    sym[..FirstOf(sym, {'-'})]
  }

  function Build(chain: string, sym: string, synth: bool, trade: bool, secured: bool): Result<Asset, AssetError> {
    match NewSymbol(sym)
    case Err(e) => Err(e)
    case Ok(symbol) =>
      match NewTicker(TickerPart(sym))
      case Err(e) => Err(e)
      case Ok(ticker) => Ok(Asset(chain, symbol, ticker, synth, trade, secured))
  }

  function NewAsset(input: string): Result<Asset, AssetError> {
    var i := FirstOf(input, SEPARATORS);
    if i == |input| then Build(SWITCHLY_CHAIN, input, false, false, false)
    else
      match NewChain(input[..i])
      case Err(e) => Err(e)
      case Ok(chain) => Build(chain, input[i + 1..], input[i] == '/', input[i] == '~', input[i] == '-')
  }

  function Divider(a: Asset): char {
    if a.secured then '-' else if a.trade then '~' else if a.synth then '/' else '.'
  }

  function String(a: Asset): string {
    Upper(a.chain) + [Divider(a)] + Upper(a.symbol)
  }

  predicate Equals(a: Asset, b: Asset) {
    && SameName(a.chain, b.chain) && SameName(a.symbol, b.symbol) && SameName(a.ticker, b.ticker)
    && a.synth == b.synth && a.trade == b.trade && a.secured == b.secured
  }

  function Native(a: Asset): string {
    if Equals(a, SWITCH_NATIVE) then "switch"
    else if Equals(a, SWITCHLY) then "tor"
    else if Equals(a, SWCY) then "swcy"
    else if Equals(a, RUJI) then "x/ruji"
    else Lower(String(a))
  }

  // ----- which assets the parser makes -----

  /** The shape of every parsed asset, without reference to the parser. */
  predicate IsParsed(a: Asset) {
    && ValidChain(a.chain)
    && IsAlphaNumeric(a.symbol) && IsUpper(a.symbol)
    && a.ticker == TickerPart(a.symbol) && 1 <= |a.ticker| <= 13
    && !(a.synth && a.trade) && !(a.trade && a.secured) && !(a.secured && a.synth)
  }

  lemma TickerLength(sym: string)
    requires IsAlphaNumeric(sym)
    ensures ByteLen(TickerPart(sym)) == |TickerPart(sym)|
  {
    ByteLenAscii(TickerPart(sym));
  }

  lemma UpperKeepsDashes(s: string)
    requires IsAlphaNumeric(s)
    ensures IsAlphaNumeric(Upper(s)) && IsUpper(Upper(s))
    ensures TickerPart(Upper(s)) == Upper(TickerPart(s))
  {
    var i := FirstOf(s, {'-'});
    FirstOfIs(Upper(s), {'-'}, i);
  }

  lemma BuildShape(chain: string, sym: string, synth: bool, trade: bool, secured: bool)
    requires ValidChain(chain)
    requires !(synth && trade) && !(trade && secured) && !(secured && synth)
    ensures var r := Build(chain, sym, synth, trade, secured); r.Ok? ==> IsParsed(r.value)
  {
    hide FirstOf, Upper, ValidChain;
    if IsAlphaNumeric(sym) {
      TickerLength(sym);
      UpperKeepsDashes(sym);
    }
  }

  lemma ParsedShape(input: string)
    ensures NewAsset(input).Ok? ==> IsParsed(NewAsset(input).value)
  {
    hide FirstOf, Upper, Build, IsParsed;
    var i := FirstOf(input, SEPARATORS);
    if i == |input| {
      BuildShape(SWITCHLY_CHAIN, input, false, false, false);
    } else if NewChain(input[..i]).Ok? {
      BuildShape(NewChain(input[..i]).value, input[i + 1..], input[i] == '/', input[i] == '~', input[i] == '-');
    }
  }

  lemma ValidChainFacts(c: string)
    requires ValidChain(c)
    ensures IsUpper(c) && IsAscii(c)
    ensures forall k :: 0 <= k < |c| ==> c[k] !in SEPARATORS && LowerChar(c[k]) !in SEPARATORS
  {
  }

  lemma SymbolFacts(s: string)
    requires IsAlphaNumeric(s) && IsUpper(s)
    ensures IsAscii(s) && Build("", s, false, false, false).Ok? == (1 <= |TickerPart(s)| <= 13)
    ensures '/' !in TickerPart(s) && IsUpper(TickerPart(s))
  {
    hide ByteLen;
    TickerLength(s);
    assert forall k :: 0 <= k < |s| ==> UpperChar(s[k]) == s[k];
  }

  /** The separator comes right after the chain, so the parser cuts a spelling exactly where the printer joined it. */
  lemma ParseSpelling(a: Asset, chain: string, sym: string)
    requires IsParsed(a) && Upper(chain) == a.chain && Upper(sym) == a.symbol
    requires IsAscii(chain) && IsAlphaNumeric(sym)
    ensures NewAsset(chain + [Divider(a)] + sym) == Ok(a)
  {
    hide FirstOf, Upper, Build;
    var input := chain + [Divider(a)] + sym;
    ChainLacksSeparators(chain);
    FirstOfIs(input, SEPARATORS, |chain|);
    assert input[..|chain|] == chain && input[|chain| + 1..] == sym;
    BuildSpelling(a, sym);
  }

  lemma ChainLacksSeparators(chain: string)
    requires ValidChain(Upper(chain))
    ensures forall k :: 0 <= k < |chain| ==> chain[k] !in SEPARATORS
  {
    forall k | 0 <= k < |chain| ensures chain[k] !in SEPARATORS {
      assert 'A' <= Upper(chain)[k] <= 'Z';
    }
  }

  lemma BuildSpelling(a: Asset, sym: string)
    requires IsParsed(a) && Upper(sym) == a.symbol && IsAlphaNumeric(sym)
    ensures Build(a.chain, sym, a.synth, a.trade, a.secured) == Ok(a)
  {
    hide FirstOf, Upper, ValidChain;
    TickerLength(sym);
    UpperKeepsDashes(sym);
    assert '/' !in TickerPart(sym);
  }

  /** Printing and parsing again gives the same asset. */
  lemma StringRoundTrip(a: Asset)
    requires IsParsed(a)
    ensures NewAsset(String(a)) == Ok(a)
  {
    ValidChainFacts(a.chain);
    ParseSpelling(a, a.chain, a.symbol);
  }

  /** The parser makes exactly the assets of that shape. */
  lemma ParsedExactly(a: Asset)
    ensures IsParsed(a) <==> exists input :: NewAsset(input) == Ok(a)
  {
    if IsParsed(a) {
      StringRoundTrip(a);
    }
    forall input | NewAsset(input) == Ok(a) ensures IsParsed(a) {
      ParsedShape(input);
    }
  }

  /** What the parser accepts, printed, parses to the same again. */
  lemma ParsePrintParse(input: string)
    requires NewAsset(input).Ok?
    ensures NewAsset(String(NewAsset(input).value)) == NewAsset(input)
  {
    ParsedShape(input);
    StringRoundTrip(NewAsset(input).value);
  }

  lemma StringInjective(a: Asset, b: Asset)
    requires IsParsed(a) && IsParsed(b)
    ensures String(a) == String(b) <==> a == b
  {
    StringRoundTrip(a);
    StringRoundTrip(b);
  }

  lemma EqualsOnParsed(a: Asset, b: Asset)
    requires IsParsed(a) && IsParsed(b)
    ensures Equals(a, b) <==> a == b
  {
    ValidChainFacts(a.chain);
    ValidChainFacts(b.chain);
    SymbolFacts(a.symbol);
    SymbolFacts(b.symbol);
  }

  // ----- the native denomination -----

  lemma PlainNameParsed(name: string)
    requires 1 <= |name| <= 13 && forall k :: 0 <= k < |name| ==> 'A' <= name[k] <= 'Z'
    ensures IsParsed(Native1(name))
  {
    hide FirstOf;
    FirstOfIs(name, {'-'}, |name|);
  }

  lemma NativesAreParsed()
    ensures IsParsed(SWITCH_NATIVE) && IsParsed(SWITCHLY) && IsParsed(SWCY) && IsParsed(RUJI)
  {
    hide IsParsed;
    PlainNameParsed("SWITCH");
    PlainNameParsed("SWITCHLY");
    PlainNameParsed("SWCY");
    PlainNameParsed("RUJI");
  }

  lemma LowerSpelling(a: Asset)
    requires IsParsed(a)
    ensures NewAsset(Lower(String(a))) == Ok(a)
    ensures exists k :: 3 <= k < |Lower(String(a))| && Lower(String(a))[k] in SEPARATORS
  {
    ValidChainFacts(a.chain);
    SymbolFacts(a.symbol);
    LowerThenUpper(a.chain);
    LowerThenUpper(a.symbol);
    assert Lower(String(a)) == Lower(a.chain) + [Divider(a)] + Lower(a.symbol);
    assert Lower(String(a))[|a.chain|] in SEPARATORS;
    ParseSpelling(a, Lower(a.chain), Lower(a.symbol));
  }

  /** A bare name parses to that symbol on the native chain. */
  lemma BareName(name: string, upper: string)
    requires IsAlphaNumeric(name) && |name| <= 13 && Upper(name) == upper
    requires forall k :: 0 <= k < |name| ==> name[k] !in SEPARATORS
    ensures NewAsset(name) == Ok(Native1(upper))
  {
    hide FirstOf, Upper;
    TickerLength(name);
    FirstOfIs(name, SEPARATORS, |name|);
    FirstOfIs(name, {'-'}, |name|);
    assert TickerPart(name) == name;
    assert '/' !in name;
  }

  /** Parsing the native denomination gives the asset back for all parsed assets but two: `tor` parses to
      SWITCHLY.TOR, and `x/ruji` does not parse. */
  lemma NativeRoundTrip(a: Asset)
    requires IsParsed(a)
    ensures NewAsset(Native(a)) == Ok(a) <==> a != SWITCHLY && a != RUJI
  {
    hide NewAsset, String, IsParsed, Equals;
    NativeCases(a);
    SwitchName();
    SwcyName();
    TorName();
    RujiName();
    LowerSpelling(a);
  }

  lemma NativeCases(a: Asset)
    requires IsParsed(a)
    ensures Native(a) == if a == SWITCH_NATIVE then "switch" else if a == SWITCHLY then "tor"
                         else if a == SWCY then "swcy" else if a == RUJI then "x/ruji" else Lower(String(a))
  {
    hide IsParsed, Equals, String;
    NativesAreParsed();
    EqualsOnParsed(a, SWITCH_NATIVE);
    EqualsOnParsed(a, SWITCHLY);
    EqualsOnParsed(a, SWCY);
    EqualsOnParsed(a, RUJI);
  }

  lemma SwitchName()
    ensures NewAsset("switch") == Ok(SWITCH_NATIVE)
  {
    hide NewAsset;
    assert Upper("switch") == "SWITCH";
    BareName("switch", "SWITCH");
  }

  lemma SwcyName()
    ensures NewAsset("swcy") == Ok(SWCY)
  {
    hide NewAsset;
    assert Upper("swcy") == "SWCY";
    BareName("swcy", "SWCY");
  }

  lemma TorName()
    ensures NewAsset("tor") == Ok(Native1("TOR"))
  {
    hide NewAsset;
    assert Upper("tor") == "TOR";
    BareName("tor", "TOR");
  }

  lemma RujiName()
    ensures NewAsset("x/ruji").Err?
  {
    hide Build, FirstOf;
    FirstOfIs("x/ruji", SEPARATORS, 1);
  }

  /** No two parsed assets share a native denomination. */
  lemma NativeInjective(a: Asset, b: Asset)
    requires IsParsed(a) && IsParsed(b)
    ensures Native(a) == Native(b) <==> a == b
  {
    hide NewAsset, String, IsParsed, Equals, Native;
    NativeCases(a);
    NativeCases(b);
    if Native(a) == Native(b) {
      NativeRoundTrip(a);
      NativeRoundTrip(b);
      LowerSpelling(a);
      LowerSpelling(b);
      RujiName();
      TorName();
    }
  }

  // ----- the string part of JSON -----

  function UnmarshalText(s: string): Result<Asset, AssetError> {
    if s == "." then Ok(NO_ASSET) else NewAsset(s)
  }

  /** Through JSON, parsed assets and the empty asset come back. */
  lemma JsonRoundTrip(a: Asset)
    requires IsParsed(a) || a == NO_ASSET
    ensures UnmarshalText(String(a)) == Ok(a)
  {
    if IsParsed(a) {
      StringRoundTrip(a);
    } else {
      assert Upper("") == "";
    }
  }

  // ----- the texts that are accepted -----

  /** What may stand for a chain: 3 to 10 letters, in either case. Two letters outside ASCII have an upper case
      inside. */
  predicate ChainText(c: string) {
    3 <= |c| <= 10
    && forall k :: 0 <= k < |c| ==> 'A' <= c[k] <= 'Z' || 'a' <= c[k] <= 'z' || c[k] == '\U{0131}' || c[k] == '\U{017F}'
  }

  /** t is what comes before the first dash of s, or all of s. */
  predicate BeforeDash(s: string, t: string) {
    t <= s && (forall k :: 0 <= k < |t| ==> t[k] != '-') && (|t| == |s| || s[|t|] == '-')
  }

  /** What may stand for a symbol, with t for its ticker: letters, digits, dashes, dots and underscores, with 1 to 13
      characters before the first dash. */
  predicate SymbolText(s: string, t: string) {
    && (forall k :: 0 <= k < |s| ==>
          'A' <= s[k] <= 'Z' || 'a' <= s[k] <= 'z' || '0' <= s[k] <= '9' || s[k] == '-' || s[k] == '.' || s[k] == '_')
    && BeforeDash(s, t) && 1 <= |t| <= 13
  }

  predicate IsSeparator(c: char) {
    c == '.' || c == '/' || c == '~' || c == '-'
  }

  predicate NoSeparator(s: string) {
    forall k :: 0 <= k < |s| ==> !IsSeparator(s[k])
  }

  lemma TickerIs(s: string, t: string)
    requires BeforeDash(s, t)
    ensures TickerPart(s) == t
  {
    FirstOfIs(s, {'-'}, |t|);
  }

  lemma TickerPartIs(s: string)
    ensures BeforeDash(s, TickerPart(s))
  {
  }

  /** The symbol and ticker of an asset, from the text they are read from. */
  predicate ReadFrom(a: Asset, s: string, t: string) {
    SymbolText(s, t) && a.symbol == Upper(s) && a.ticker == Upper(t)
  }

  lemma SymbolTextIs(s: string)
    ensures IsAlphaNumeric(s) && NewTicker(TickerPart(s)).Ok? <==> SymbolText(s, TickerPart(s))
  {
    hide FirstOf, ByteLen, Upper;
    var t := TickerPart(s);
    TickerPartIs(s);
    if IsAlphaNumeric(s) {
      TickerLength(s);
      assert '/' !in t;
    }
  }

  lemma BuildExactly(chain: string, s: string, synth: bool, trade: bool, secured: bool, a: Asset)
    ensures Build(chain, s, synth, trade, secured) == Ok(a)
       <==> && a.chain == chain && a.synth == synth && a.trade == trade && a.secured == secured
            && exists t :: ReadFrom(a, s, t)
  {
    hide FirstOf, Upper, ByteLen, TickerPart, IsAlphaNumeric;
    SymbolTextIs(s);
    forall t | SymbolText(s, t) ensures t == TickerPart(s) {
      TickerIs(s, t);
    }
    assert ReadFrom(a, s, TickerPart(s)) <==> exists t :: ReadFrom(a, s, t);
  }

  lemma ChainExactly(c: string)
    ensures NewChain(c) == if ChainText(c) then Ok(Upper(c)) else Err(InvalidChain)
  {
    forall k | 0 <= k < |c| ensures 'A' <= UpperChar(c[k]) <= 'Z'
      <==> 'A' <= c[k] <= 'Z' || 'a' <= c[k] <= 'z' || c[k] == '\U{0131}' || c[k] == '\U{017F}'
    {
    }
  }

  /** Where the parser cuts. */
  lemma CutAt(input: string, c: string, sep: char, s: string)
    requires input == c + [sep] + s && NoSeparator(c) && IsSeparator(sep)
    ensures FirstOf(input, SEPARATORS) == |c| < |input|
    ensures input[..|c|] == c && input[|c|] == sep && input[|c| + 1..] == s
  {
    FirstOfIs(input, SEPARATORS, |c|);
  }

  lemma ChainTextPlain(c: string)
    requires ChainText(c)
    ensures NoSeparator(c)
  {
  }

  /** Without a separator: a symbol on the native chain. */
  lemma BareAccepted(input: string, a: Asset)
    requires NoSeparator(input)
    ensures NewAsset(input) == Ok(a)
       <==> && a.chain == "SWITCHLY" && !a.synth && !a.trade && !a.secured
            && exists t :: ReadFrom(a, input, t)
  {
    hide FirstOf, Build, ReadFrom;
    assert forall k :: 0 <= k < |input| ==> !IsSeparator(input[k]);
    assert FirstOf(input, SEPARATORS) == |input|;
    BuildExactly(SWITCHLY_CHAIN, input, false, false, false, a);
  }

  /** With one: the first separator tells the kind of asset, before it stands the chain and behind it the symbol, in
      which further dots and dashes may follow. */
  lemma CutAccepted(c: string, sep: char, s: string, a: Asset)
    requires NoSeparator(c) && IsSeparator(sep)
    ensures NewAsset(c + [sep] + s) == Ok(a)
       <==> && ChainText(c) && a.chain == Upper(c)
            && a.synth == (sep == '/') && a.trade == (sep == '~') && a.secured == (sep == '-')
            && exists t :: ReadFrom(a, s, t)
  {
    hide FirstOf, Build, ReadFrom, Upper, NewChain, ChainText;
    CutAt(c + [sep] + s, c, sep, s);
    ChainExactly(c);
    BuildExactly(Upper(c), s, sep == '/', sep == '~', sep == '-', a);
  }

  /** Every input is of one of these two forms. */
  lemma SplitInput(input: string)
    ensures NoSeparator(input)
         || exists c, sep, s :: NoSeparator(c) && IsSeparator(sep) && input == c + [sep] + s
  {
    var i := FirstOf(input, SEPARATORS);
    if i < |input| {
      var c, sep, s := input[..i], input[i], input[i + 1..];
      assert input == c + [sep] + s;
      assert NoSeparator(c) && IsSeparator(sep);
    } else {
      assert NoSeparator(input);
    }
  }

  /** Which error: the chain is looked at before the symbol, and the symbol before the ticker. */
  lemma CutError(c: string, sep: char, s: string)
    requires NoSeparator(c) && IsSeparator(sep) && NewAsset(c + [sep] + s).Err?
    ensures NewAsset(c + [sep] + s).error
         == if !ChainText(c) then InvalidChain
            else if |s| == 0 || exists k :: 0 <= k < |s| && !SymbolChar(s[k]) then InvalidSymbol
            else InvalidTicker
  {
    hide FirstOf, Upper, ByteLen, ChainText, NewChain, TickerPart, SymbolChar;
    CutAt(c + [sep] + s, c, sep, s);
    ChainExactly(c);
  }

  /** Reading a text of the accepted form. */
  lemma Reads(c: string, sep: char, s: string, t: string)
    requires ChainText(c) && IsSeparator(sep) && SymbolText(s, t)
    ensures NewAsset(c + [sep] + s) == Ok(Asset(Upper(c), Upper(s), Upper(t), sep == '/', sep == '~', sep == '-'))
  {
    hide FirstOf, Build, Upper, NewAsset, ChainText, SymbolText;
    ChainTextPlain(c);
    var a := Asset(Upper(c), Upper(s), Upper(t), sep == '/', sep == '~', sep == '-');
    assert ReadFrom(a, s, t);
    CutAccepted(c, sep, s, a);
  }

  lemma ParseExamples()
    ensures NewAsset("BTC.BTC") == Ok(Asset("BTC", "BTC", "BTC", false, false, false))
    ensures NewAsset("BTC/BTC") == Ok(Asset("BTC", "BTC", "BTC", true, false, false))
    ensures NewAsset("BTC~BTC") == Ok(Asset("BTC", "BTC", "BTC", false, true, false))
    ensures NewAsset("BTC-BTC") == Ok(Asset("BTC", "BTC", "BTC", false, false, true))
    ensures NewAsset("btc.btc") == NewAsset("BTC.BTC")
    ensures NewAsset("ETH.USDC-0X1") == Ok(Asset("ETH", "USDC-0X1", "USDC", false, false, false))
  {
    hide NewAsset;
    assert Upper("BTC") == "BTC" == Upper("btc") && Upper("ETH") == "ETH";
    assert Upper("USDC-0X1") == "USDC-0X1" && Upper("USDC") == "USDC";
    assert "BTC" + ['.'] + "BTC" == "BTC.BTC" && "BTC" + ['/'] + "BTC" == "BTC/BTC";
    assert "BTC" + ['~'] + "BTC" == "BTC~BTC" && "BTC" + ['-'] + "BTC" == "BTC-BTC";
    assert "btc" + ['.'] + "btc" == "btc.btc" && "ETH" + ['.'] + "USDC-0X1" == "ETH.USDC-0X1";
    Reads("BTC", '.', "BTC", "BTC");
    Reads("BTC", '/', "BTC", "BTC");
    Reads("BTC", '~', "BTC", "BTC");
    Reads("BTC", '-', "BTC", "BTC");
    Reads("btc", '.', "btc", "btc");
    DashExample();
  }

  lemma DashExample()
    ensures SymbolText("USDC-0X1", "USDC")
    ensures NewAsset("ETH" + ['.'] + "USDC-0X1") == Ok(Asset("ETH", "USDC-0X1", "USDC", false, false, false))
  {
    hide NewAsset;
    assert "USDC-0X1"[..4] == "USDC" && "USDC-0X1"[4] == '-';
    assert Upper("USDC-0X1") == "USDC-0X1" && Upper("USDC") == "USDC" && Upper("ETH") == "ETH";
    Reads("ETH", '.', "USDC-0X1", "USDC");
  }

  /** Printing. */
  lemma PrintExamples()
    ensures String(Asset("BTC", "BTC", "BTC", false, false, false)) == "BTC.BTC"
    ensures String(Asset("btc", "btc", "btc", true, false, false)) == "BTC/BTC"
    ensures String(Asset("BTC", "BTC", "BTC", false, true, false)) == "BTC~BTC"
    ensures String(Asset("BTC", "BTC", "BTC", false, false, true)) == "BTC-BTC"
    ensures UnmarshalText(".") == Ok(Asset("", "", "", false, false, false))
  {
    assert Upper("BTC") == "BTC" == Upper("btc");
  }

  /** The names with a denomination of their own, and another. */
  lemma NativeExamples()
    ensures Native(Asset("SWITCHLY", "SWITCH", "SWITCH", false, false, false)) == "switch"
    ensures Native(Asset("SWITCHLY", "SWITCHLY", "SWITCHLY", false, false, false)) == "tor"
    ensures Native(Asset("SWITCHLY", "SWCY", "SWCY", false, false, false)) == "swcy"
    ensures Native(Asset("SWITCHLY", "RUJI", "RUJI", false, false, false)) == "x/ruji"
    ensures Native(Asset("BTC", "BTC", "BTC", true, false, false)) == "btc/btc"
  {
    hide Native, IsParsed, Equals, String, NewAsset;
    NativesAreParsed();
    NativeCases(SWITCH_NATIVE);
    NativeCases(SWITCHLY);
    NativeCases(SWCY);
    NativeCases(RUJI);
    ParseExamples();
    ParsedShape("BTC/BTC");
    PrintExamples();
    NativeCases(Asset("BTC", "BTC", "BTC", true, false, false));
    LowerExample();
  }

  lemma LowerExample()
    ensures String(Asset("BTC", "BTC", "BTC", true, false, false)) == "BTC/BTC" && Lower("BTC/BTC") == "btc/btc"
  {
    assert Upper("BTC") == "BTC";
  }
}

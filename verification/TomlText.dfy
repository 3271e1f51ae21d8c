/**
  Written documents: a text together with how it was laid out, and what it is meant to say.
  Every choice the format leaves open (layout, quotes, escapes, signs, leading zeros, trailing
  commas, a last comment) is a part of the written form.
*/
module TomlText {
  import opened Decimals
  import opened Wrappers
  import opened TomlSpec

  // ----- layout -----

  /** Blanks and whole comments, each with its newline. */
  predicate IsLayout(w: string) {
    IsBlank(w)
  }

  predicate IsBlank(w: string)
    decreases |w|, 1
  {
    w == [] || (if w[0] == '#' then IsComment(w[1..]) else IsSpace(w[0]) && IsBlank(w[1..]))
  }

  /** The rest of a comment, its newline, and layout. */
  predicate IsComment(w: string)
    decreases |w|, 0
  {
    w != [] && if w[0] == '\n' then IsBlank(w[1..]) else IsComment(w[1..])
  }

  /** A comment that the end of the text cuts off, or nothing. */
  predicate IsLastComment(w: string) {
    w == [] || (w[0] == '#' && forall i :: 0 <= i < |w| ==> w[i] != '\n')
  }

  // ----- values -----

  datatype Piece = Plain(c: char) | Escaped(letter: char)

  datatype Written =
    | WrittenInt(sign: string, digits: string)
    | WrittenBool(b: bool)
    | WrittenBasic(pieces: seq<Piece>)
    | WrittenLiteral(text: string)
    | WrittenArray(open: string, items: Items)
    | WrittenTable(open: string, pairs: Pairs)

  datatype Items =
    | NoItem
    | LastItem(item: Written, after: string)
    | Item(item: Written, after: string, gap: string, rest: Items)

  /** `key after = before value`. */
  datatype Assignment = Assignment(key: string, afterKey: string, before: string, value: Written)

  datatype Pairs =
    | NoPair
    | LastPair(pair: Assignment, after: string)
    | APair(pair: Assignment, after: string, gap: string, rest: Pairs)

  function ShowPiece(p: Piece): string {
    match p
    case Plain(c) => [c]
    case Escaped(letter) => ['\\', letter]
  }

  /** The pieces and the closing quote. */
  function ShowPieces(ps: seq<Piece>): string {
    if ps == [] then "\"" else ShowPiece(ps[0]) + ShowPieces(ps[1..])
  }

  function Show(w: Written): string {
    match w
    case WrittenInt(sign, digits) => sign + digits
    case WrittenBool(b) => if b then "true" else "false"
    case WrittenBasic(pieces) => "\"" + ShowPieces(pieces)
    case WrittenLiteral(text) => "'" + (text + "'")
    case WrittenArray(open, items) => "[" + (open + ShowItems(items))
    case WrittenTable(open, pairs) => "{" + (open + ShowPairs(pairs))
  }

  /** The items and the closing bracket. */
  function ShowItems(items: Items): string {
    match items
    case NoItem => "]"
    case LastItem(item, after) => Show(item) + (after + "]")
    case Item(item, after, gap, rest) => Show(item) + (after + ("," + (gap + ShowItems(rest))))
  }

  function ShowAssignment(a: Assignment): string {
    a.key + (a.afterKey + ("=" + (a.before + Show(a.value))))
  }

  /** The pairs and the closing brace. */
  function ShowPairs(pairs: Pairs): string {
    match pairs
    case NoPair => "}"
    case LastPair(pair, after) => ShowAssignment(pair) + (after + "}")
    case APair(pair, after, gap, rest) => ShowAssignment(pair) + (after + ("," + (gap + ShowPairs(rest))))
  }

  predicate IsBareKey(key: string) {
    key != [] && forall i :: 0 <= i < |key| ==> IsKeyChar(key[i])
  }

  predicate IsDigits(digits: string) {
    digits != [] && AllDigits(digits)
  }

  predicate PieceOk(p: Piece) {
    match p
    case Plain(c) => c != '"' && c != '\\'
    case Escaped(letter) => Unescape(letter).Some?
  }

  predicate PiecesOk(ps: seq<Piece>) {
    forall i :: 0 <= i < |ps| ==> PieceOk(ps[i])
  }

  predicate IsSign(sign: string) {
    sign == "" || sign == "-" || sign == "+"
  }

  predicate IsLiteral(text: string) {
    forall i :: 0 <= i < |text| ==> text[i] != '\''
  }

  predicate WrittenOk(w: Written) {
    match w
    case WrittenInt(sign, digits) => IsSign(sign) && IsDigits(digits)
    case WrittenBool(_) => true
    case WrittenBasic(pieces) => PiecesOk(pieces)
    case WrittenLiteral(text) => IsLiteral(text)
    case WrittenArray(open, items) => IsLayout(open) && ItemsOk(items)
    case WrittenTable(open, pairs) => IsLayout(open) && PairsOk(pairs)
  }

  predicate ItemsOk(items: Items) {
    match items
    case NoItem => true
    case LastItem(item, after) => WrittenOk(item) && IsLayout(after)
    case Item(item, after, gap, rest) => WrittenOk(item) && IsLayout(after) && IsLayout(gap) && ItemsOk(rest)
  }

  predicate IsNamed(a: Assignment) {
    IsBareKey(a.key) && IsLayout(a.afterKey) && IsLayout(a.before)
  }

  predicate PairsOk(pairs: Pairs) {
    match pairs
    case NoPair => true
    case LastPair(pair, after) => IsNamed(pair) && WrittenOk(pair.value) && IsLayout(after)
    case APair(pair, after, gap, rest) =>
      IsNamed(pair) && WrittenOk(pair.value) && IsLayout(after) && IsLayout(gap) && PairsOk(rest)
  }

  function PieceMeaning(p: Piece): char
    requires PieceOk(p)
  {
    match p
    case Plain(c) => c
    case Escaped(letter) => Unescape(letter).value
  }

  function PiecesMeaning(ps: seq<Piece>): string
    requires PiecesOk(ps)
  {
    if ps == [] then [] else [PieceMeaning(ps[0])] + PiecesMeaning(ps[1..])
  }

  function Meaning(w: Written): Value
    requires WrittenOk(w)
  {
    match w
    case WrittenInt(sign, digits) => Int(if sign == "-" then -Decimal(digits) else Decimal(digits))
    case WrittenBool(b) => Bool(b)
    case WrittenBasic(pieces) => Str(PiecesMeaning(pieces))
    case WrittenLiteral(text) => Str(text)
    case WrittenArray(_, items) => Array(ItemsMeaning(items))
    case WrittenTable(_, pairs) => Table(PairsMeaning(pairs, map[]))
  }

  function ItemsMeaning(items: Items): seq<Value>
    requires ItemsOk(items)
  {
    match items
    case NoItem => []
    case LastItem(item, _) => [Meaning(item)]
    case Item(item, _, _, rest) => [Meaning(item)] + ItemsMeaning(rest)
  }

  /** Later pairs win. */
  function PairsMeaning(pairs: Pairs, out: Tree): Tree
    requires PairsOk(pairs)
  {
    match pairs
    case NoPair => out
    case LastPair(pair, _) => out[pair.key := Meaning(pair.value)]
    case APair(pair, _, _, rest) => PairsMeaning(rest, out[pair.key := Meaning(pair.value)])
  }

  // ----- documents -----

  /** A further key of a header: a dot, layout, the key. */
  datatype Part = Part(gap: string, key: string)

  datatype Line =
    | HeaderLine(first: Part, more: seq<Part>, after: string)
    | PairLine(pair: Assignment)

  function ShowParts(parts: seq<Part>): string {
    if parts == [] then "" else "." + (parts[0].gap + (parts[0].key + ShowParts(parts[1..])))
  }

  function ShowLine(line: Line): string {
    match line
    case HeaderLine(first, more, after) => "[" + (first.gap + (first.key + (ShowParts(more) + (after + "]"))))
    case PairLine(pair) => ShowAssignment(pair)
  }

  predicate PartOk(part: Part) {
    IsLayout(part.gap) && IsBareKey(part.key)
  }

  predicate PartsOk(parts: seq<Part>) {
    forall i :: 0 <= i < |parts| ==> PartOk(parts[i])
  }

  predicate LineOk(line: Line) {
    match line
    case HeaderLine(first, more, after) => PartOk(first) && PartsOk(more) && IsLayout(after)
    case PairLine(pair) => IsNamed(pair) && WrittenOk(pair.value)
  }

  function PartKeys(parts: seq<Part>): seq<string> {
    if parts == [] then [] else [parts[0].key] + PartKeys(parts[1..])
  }

  function LineMeaning(line: Line): Statement
    requires LineOk(line)
  {
    match line
    case HeaderLine(first, more, _) => Header([first.key] + PartKeys(more))
    case PairLine(pair) => Pair(pair.key, Meaning(pair.value))
  }

  /** Statements from here on, each with the layout before it, then the layout at the end. */
  datatype Text = End(gap: string, comment: string) | Lines(gap: string, line: Line, rest: Text)

  function ShowText(text: Text): string {
    match text
    case End(gap, comment) => gap + comment
    case Lines(gap, line, rest) => gap + (ShowLine(line) + ShowText(rest))
  }

  predicate StartsApart(rest: string) {
    rest == "" || !IsDigit(rest[0])
  }

  /** A number that ends a line must not go on in the text after it; any non-empty layout will do. */
  predicate Separate(line: Line, rest: string) {
    line.PairLine? && line.pair.value.WrittenInt? ==> StartsApart(rest)
  }

  predicate TextOk(text: Text) {
    match text
    case End(gap, comment) => IsLayout(gap) && IsLastComment(comment)
    case Lines(gap, line, rest) => IsLayout(gap) && LineOk(line) && TextOk(rest) && Separate(line, ShowText(rest))
  }

  function Statements(text: Text): seq<Statement>
    requires TextOk(text)
  {
    match text
    case End(_, _) => []
    case Lines(_, line, rest) => [LineMeaning(line)] + Statements(rest)
  }
}

/** Resolving an index: the rows of `SKEG.VINDEX.LIST`. */
module VindexInfo {
  import opened Bytes
  import opened Resp3
  import Decimal

  const EQUALS: nat := 61
  const SPACE: nat := 32
  const NAME: Text := [110, 97, 109, 101]
  const DIM: Text := [100, 105, 109]
  const COUNT: Text := [110, 95, 118, 101, 99, 116, 111, 114, 115]

  const U32_LIMIT: nat := 0x1_0000_0000

  /** Unicode `White_Space`, which is what `split_whitespace` splits on. */
  predicate IsWhite(c: nat) {
    || 9 <= c <= 13 || c == 32 || c == 0x85 || c == 0xA0 || c == 0x1680 || 0x2000 <= c <= 0x200A
    || c == 0x2028 || c == 0x2029 || c == 0x202F || c == 0x205F || c == 0x3000
  }

  predicate NoWhite(s: Text) { forall c :: c in s ==> !IsWhite(c) }

  /** The end of the word that `s` starts with. */
  function WordEnd(s: Text): (n: nat)
    ensures n <= |s|
  {
    if s == [] || IsWhite(s[0]) then 0 else 1 + WordEnd(s[1..])
  }

  function Words(s: Text): seq<Text>
    decreases |s|
  {
    if s == [] then []
    else if IsWhite(s[0]) then Words(s[1..])
    else [s[..WordEnd(s)]] + Words(s[WordEnd(s)..])
  }

  /** Where the first equals sign stands, or the length. */
  function KeyEnd(s: Text): (n: nat)
    ensures n <= |s|
    ensures n < |s| ==> s[n] == EQUALS
  {
    if s == [] || s[0] == EQUALS then 0 else 1 + KeyEnd(s[1..])
  }

  datatype Fields = Fields(name: Option<Text>, dim: Option<u32>, count: Option<u64>)

  /** Later fields overwrite earlier ones, even with a number that does not parse. */
  function SetField(f: Fields, word: Text): Fields {
    var n := KeyEnd(word);
    if n == |word| then f
    else
      var key, v := word[..n], word[n + 1..];
      if key == NAME then f.(name := Some(v))
      else if key == DIM then f.(dim := Decimal.Parse(v, U32_LIMIT))
      else if key == COUNT then f.(count := Decimal.Parse(v, U64_LIMIT))
      else f
  }

  function SetFields(f: Fields, words: seq<Text>): Fields
    decreases |words|
  {
    if words == [] then f else SetFields(SetField(f, words[0]), words[1..])
  }

  const NOTHING: Fields := Fields(None, None, None)

  /** `lossy` is `String::from_utf8_lossy`. */
  function LineOf(lossy: bytes -> Text, row: Frame): Option<Text> {
    match row
    case Bulk(b) => Some(lossy(b))
    case Simple(text) => Some(text)
    case _ => None
  }

  function FieldsOf(lossy: bytes -> Text, row: Frame): Fields {
    match LineOf(lossy, row)
    case None => NOTHING
    case Some(line) => SetFields(NOTHING, Words(line))
  }

  function Resolve(lossy: bytes -> Text, rows: seq<Frame>, index: Text): Result<(u32, u64), NetError> {
    if rows == [] then Err(Protocol)
    else
      var f := FieldsOf(lossy, rows[0]);
      if f.name == Some(index) then
        if f.dim.None? then Err(Protocol) else Ok((f.dim.value, if f.count.Some? then f.count.value else 0))
      else Resolve(lossy, rows[1..], index)
  }

  function ResolveReply(lossy: bytes -> Text, reply: Result<Frame, NetError>, index: Text)
    : Result<(u32, u64), NetError>
  {
    if reply.Err? then Err(reply.error)
    else if reply.value.Array? then Resolve(lossy, reply.value.items, index)
    else Err(Protocol)
  }

  method ResolveIndex(lossy: bytes -> Text, reply: Result<Frame, NetError>, index: Text)
    returns (r: Result<(u32, u64), NetError>)
    ensures r == ResolveReply(lossy, reply, index)
  {
    hide SetField, Words;
    if reply.Err? {
      return Err(reply.error);
    }
    if !reply.value.Array? {
      return Err(Protocol);
    }
    var rows := reply.value.items;
    for i := 0 to |rows|
      invariant Resolve(lossy, rows, index) == Resolve(lossy, rows[i..], index)
    {
      assert rows[i..][1..] == rows[i + 1..];
      var f := NOTHING;
      var line := LineOf(lossy, rows[i]);
      if line.Some? {
        var words := Words(line.value);
        for j := 0 to |words|
          invariant SetFields(NOTHING, words) == SetFields(f, words[j..])
        {
          assert words[j..][1..] == words[j + 1..];
          f := SetField(f, words[j]);
        }
      }
      if f.name == Some(index) {
        if f.dim.None? {
          return Err(Protocol);
        }
        return Ok((f.dim.value, if f.count.Some? then f.count.value else 0));
      }
    }
    return Err(Protocol);
  }

  // ---- what a row says --------------------------------------------------------------------

  /** The word is `key=v`, divided at its first equals sign. */
  predicate Says(word: Text, key: Text, v: Text) { EQUALS !in key && word == key + [EQUALS] + v }

  ghost predicate Mentions(word: Text, key: Text) { exists v :: Says(word, key, v) }

  lemma KeyEndSays(word: Text, key: Text, v: Text)
    ensures Says(word, key, v) <==>
            KeyEnd(word) < |word| && key == word[..KeyEnd(word)] && v == word[KeyEnd(word) + 1..]
  {
    hide KeyEnd;
    NoneBefore(word);
    var n := KeyEnd(word);
    if n < |word| {
      assert word == word[..n] + [EQUALS] + word[n + 1..];
    }
    if Says(word, key, v) {
      KeyEndOf(key, v);
      assert word[..|key|] == key && word[|key| + 1..] == v;
    }
  }

  lemma {:induction false} NoneBefore(word: Text)
    ensures EQUALS !in word[..KeyEnd(word)]
  {
    if word != [] && word[0] != EQUALS {
      NoneBefore(word[1..]);
      assert word[..KeyEnd(word)] == [word[0]] + word[1..][..KeyEnd(word[1..])];
    }
  }

  lemma {:induction false} KeyEndOf(key: Text, v: Text)
    requires EQUALS !in key
    ensures KeyEnd(key + [EQUALS] + v) == |key|
  {
    var s := key + [EQUALS] + v;
    if key != [] {
      assert s[1..] == key[1..] + [EQUALS] + v;
      KeyEndOf(key[1..], v);
    }
  }

  lemma FieldSaid(f: Fields, word: Text)
    ensures forall v :: Says(word, NAME, v) ==> SetField(f, word) == f.(name := Some(v))
    ensures forall v :: Says(word, DIM, v) ==> SetField(f, word) == f.(dim := Decimal.Parse(v, 0x1_0000_0000))
    ensures forall v :: Says(word, COUNT, v) ==>
              SetField(f, word) == f.(count := Decimal.Parse(v, 0x1_0000_0000_0000_0000))
    ensures !Mentions(word, NAME) ==> SetField(f, word).name == f.name
    ensures !Mentions(word, DIM) ==> SetField(f, word).dim == f.dim
    ensures !Mentions(word, COUNT) ==> SetField(f, word).count == f.count
  {
    hide Says, KeyEnd;
    forall key, v
      ensures Says(word, key, v) <==>
              KeyEnd(word) < |word| && key == word[..KeyEnd(word)] && v == word[KeyEnd(word) + 1..]
    {
      KeyEndSays(word, key, v);
    }
  }

  /** The last word that mentions a field decides it; without one the field keeps its value. */
  lemma {:induction false} LastWordDecides(f: Fields, words: seq<Text>, j: nat, v: Text)
    requires j < |words|
    ensures var r := SetFields(f, words);
            && (Says(words[j], NAME, v) && (forall i :: j < i < |words| ==> !Mentions(words[i], NAME)) ==>
                  r.name == Some(v))
            && (Says(words[j], DIM, v) && (forall i :: j < i < |words| ==> !Mentions(words[i], DIM)) ==>
                  r.dim == Decimal.Parse(v, 0x1_0000_0000))
            && (Says(words[j], COUNT, v) && (forall i :: j < i < |words| ==> !Mentions(words[i], COUNT)) ==>
                  r.count == Decimal.Parse(v, 0x1_0000_0000_0000_0000))
    decreases |words|
  {
    hide Says, Mentions, SetField, Decimal.Parse;
    var more := words[1..];
    FieldSaid(f, words[0]);
    assert forall i :: 0 < i < |words| ==> words[i] == more[i - 1];
    assert forall i {:trigger more[i]} :: 0 <= i < |more| ==> more[i] == words[i + 1];
    if j == 0 {
      Unmentioned(SetField(f, words[0]), more);
    } else {
      LastWordDecides(SetField(f, words[0]), more, j - 1, v);
    }
  }

  lemma {:induction false} Unmentioned(f: Fields, words: seq<Text>)
    ensures var r := SetFields(f, words);
            && ((forall w :: w in words ==> !Mentions(w, NAME)) ==> r.name == f.name)
            && ((forall w :: w in words ==> !Mentions(w, DIM)) ==> r.dim == f.dim)
            && ((forall w :: w in words ==> !Mentions(w, COUNT)) ==> r.count == f.count)
    decreases |words|
  {
    hide Says, Mentions, SetField;
    if words != [] {
      FieldSaid(f, words[0]);
      assert words[0] in words && forall w :: w in words[1..] ==> w in words;
      Unmentioned(SetField(f, words[0]), words[1..]);
    }
  }

  // ---- rows as the server prints them -----------------------------------------------------

  /** A row may lack its dimension or its count; `extras` are its other fields, such as the kind. */
  datatype IndexRow = IndexRow(name: Text, dim: Option<nat>, extras: seq<Text>, count: Option<nat>)

  predicate IsExtra(word: Text) {
    && word != [] && NoWhite(word)
    && (KeyEnd(word) == |word| || (var key := word[..KeyEnd(word)]; key != NAME && key != DIM && key != COUNT))
  }

  predicate Printable(row: IndexRow) {
    NoWhite(row.name) && forall w :: w in row.extras ==> IsExtra(w)
  }

  function Assign(key: Text, v: Text): Text { key + [EQUALS] + v }

  function NumberWords(key: Text, n: Option<nat>): seq<Text> {
    if n.Some? then [Assign(key, Decimal.Print(n.value))] else []
  }

  function RowWords(row: IndexRow): seq<Text> {
    [Assign(NAME, row.name)] + NumberWords(DIM, row.dim) + row.extras + NumberWords(COUNT, row.count)
  }

  function Join(words: seq<Text>): Text {
    if words == [] then [] else if |words| == 1 then words[0] else words[0] + [SPACE] + Join(words[1..])
  }

  function PrintRow(row: IndexRow): Text { Join(RowWords(row)) }

  lemma {:induction false} WordEndOf(word: Text, rest: Text)
    requires NoWhite(word) && (rest == [] || IsWhite(rest[0]))
    ensures WordEnd(word + rest) == |word|
  {
    hide IsWhite;
    if word == [] {
      assert word + rest == rest;
    } else {
      assert word[0] in word;
      assert (word + rest)[1..] == word[1..] + rest;
      WordEndOf(word[1..], rest);
    }
  }

  lemma {:induction false} WordsOfJoin(words: seq<Text>)
    requires forall w :: w in words ==> w != [] && NoWhite(w)
    ensures Words(Join(words)) == words
    decreases |words|
  {
    if words != [] {
      var word, more := words[0], words[1..];
      var rest: Text := if more == [] then [] else [SPACE] + Join(more);
      var s := Join(words);
      assert s == word + rest by {
        if more == [] {
          assert word + rest == word;
        }
      }
      assert word in words && word[0] in word;
      WordEndOf(word, rest);
      assert s[..|word|] == word && s[|word|..] == rest;
      assert forall w :: w in more ==> w in words;
      WordsOfJoin(more);
      if more != [] {
        assert rest[1..] == Join(more);
        assert IsWhite(rest[0]);
      } else {
        assert Words(rest) == [];
      }
      assert words == [word] + more;
    }
  }

  lemma SetAssigned(f: Fields, key: Text, v: Text)
    requires EQUALS !in key
    ensures SetField(f, Assign(key, v)) ==
            if key == NAME then f.(name := Some(v))
            else if key == DIM then f.(dim := Decimal.Parse(v, U32_LIMIT))
            else if key == COUNT then f.(count := Decimal.Parse(v, U64_LIMIT))
            else f
  {
    KeyEndOf(key, v);
    assert Assign(key, v)[..|key|] == key && Assign(key, v)[|key| + 1..] == v;
  }

  lemma {:induction false} ExtrasIgnored(f: Fields, extras: seq<Text>, more: seq<Text>)
    requires forall w :: w in extras ==> IsExtra(w)
    ensures SetFields(f, extras + more) == SetFields(f, more)
    decreases |extras|
  {
    hide KeyEnd;
    if extras == [] {
      assert extras + more == more;
    } else {
      assert IsExtra(extras[0]);
      assert (extras + more)[1..] == extras[1..] + more;
      ExtrasIgnored(f, extras[1..], more);
    }
  }

  lemma AssignedHasNoWhite(key: Text, v: Text)
    requires NoWhite(key) && NoWhite(v)
    ensures NoWhite(Assign(key, v)) && Assign(key, v) != []
  {
  }

  lemma DigitsAreNotWhite(s: Text)
    requires Decimal.AllDigits(s)
    ensures NoWhite(s)
  {
  }

  lemma NumberSet(f: Fields, key: Text, n: Option<nat>, more: seq<Text>)
    requires EQUALS !in key
    ensures SetFields(f, NumberWords(key, n) + more) ==
            SetFields(if n.Some? then SetField(f, Assign(key, Decimal.Print(n.value))) else f, more)
  {
    hide SetField;
    var words := NumberWords(key, n);
    if n.Some? {
      assert (words + more)[1..] == more;
    } else {
      assert words + more == more;
    }
  }

  lemma PrintedFields(row: IndexRow)
    requires Printable(row)
    ensures SetFields(NOTHING, Words(PrintRow(row))) ==
            Fields(Some(row.name),
                   if row.dim.Some? && row.dim.value < U32_LIMIT then Some(row.dim.value) else None,
                   if row.count.Some? && row.count.value < U64_LIMIT then Some(row.count.value) else None)
  {
    hide Words, Join, SetField, IsWhite, IsExtra;
    var words := RowWords(row);
    KeysAreWords();
    RowWordsAreWords(row);
    WordsOfJoin(words);
    SetAssigned(NOTHING, NAME, row.name);
    var f1 := Fields(Some(row.name), None, None);
    var f2 := f1.(dim := if row.dim.Some? && row.dim.value < U32_LIMIT then Some(row.dim.value) else None);
    var counts := NumberWords(COUNT, row.count);
    assert words[1..] == NumberWords(DIM, row.dim) + (row.extras + counts);
    NumberSet(f1, DIM, row.dim, row.extras + counts);
    if row.dim.Some? {
      SetAssigned(f1, DIM, Decimal.Print(row.dim.value));
      Decimal.ParsePrinted(row.dim.value, U32_LIMIT);
    }
    ExtrasIgnored(f2, row.extras, counts);
    assert counts == counts + [];
    NumberSet(f2, COUNT, row.count, []);
    if row.count.Some? {
      SetAssigned(f2, COUNT, Decimal.Print(row.count.value));
      Decimal.ParsePrinted(row.count.value, U64_LIMIT);
    }
  }

  lemma NumberWordsAreWords(key: Text, n: Option<nat>)
    requires NoWhite(key)
    ensures forall w :: w in NumberWords(key, n) ==> w != [] && NoWhite(w)
  {
    hide IsWhite, Decimal.Print;
    if n.Some? {
      DigitsAreNotWhite(Decimal.Print(n.value));
      AssignedHasNoWhite(key, Decimal.Print(n.value));
    }
  }

  lemma RowWordsAreWords(row: IndexRow)
    requires Printable(row)
    ensures forall w :: w in RowWords(row) ==> w != [] && NoWhite(w)
  {
    hide IsWhite, IsExtra, NumberWords, NoWhite;
    KeysAreWords();
    AssignedHasNoWhite(NAME, row.name);
    NumberWordsAreWords(DIM, row.dim);
    NumberWordsAreWords(COUNT, row.count);
    ExtrasAreWords(row.extras);
  }

  lemma KeysAreWords()
    ensures NoWhite(NAME) && NoWhite(DIM) && NoWhite(COUNT)
    ensures EQUALS !in NAME && EQUALS !in DIM && EQUALS !in COUNT
  {
  }

  lemma ExtrasAreWords(extras: seq<Text>)
    requires forall w :: w in extras ==> IsExtra(w)
    ensures forall w :: w in extras ==> w != [] && NoWhite(w)
  {
  }

  /** `name=a dim=3 n_vectors=5` */
  lemma KnownRow()
    ensures PrintRow(IndexRow([97], Some(3), [], Some(5))) ==
            [110, 97, 109, 101, 61, 97, 32] + [100, 105, 109, 61, 51, 32]
            + [110, 95, 118, 101, 99, 116, 111, 114, 115, 61, 53]
  {
    assert Decimal.Print(3) == [51] && Decimal.Print(5) == [53];
    var name, dim, count := Assign(NAME, [97]), Assign(DIM, [51]), Assign(COUNT, [53]);
    var words := RowWords(IndexRow([97], Some(3), [], Some(5)));
    assert words == [name, dim, count];
    assert words[1..] == [dim, count] && words[1..][1..] == [count];
    assert Join(words) == name + [SPACE] + (dim + [SPACE] + count);
  }

  /** What the server lists: a row as text or as bytes, or something else, which is passed over. */
  predicate Shows(lossy: bytes -> Text, frame: Frame, row: Option<IndexRow>) {
    match row
    case None => !frame.Simple? && !frame.Bulk?
    case Some(r) => Printable(r) && (frame == Simple(PrintRow(r)) || (frame.Bulk? && lossy(frame.b) == PrintRow(r)))
  }

  predicate Named(row: Option<IndexRow>, index: Text) { row.Some? && row.value.name == index }

  /** The first row of the requested name, or `|rows|`. */
  function FirstNamed(rows: seq<Option<IndexRow>>, index: Text): (k: nat)
    ensures k <= |rows|
    ensures k < |rows| ==> Named(rows[k], index)
    ensures forall i :: 0 <= i < k ==> !Named(rows[i], index)
  {
    if rows == [] || Named(rows[0], index) then 0 else 1 + FirstNamed(rows[1..], index)
  }

  /**
   The answer is the first row of that name: its dimension, without which (or with one beyond 32
   bits) it is refused, and its count, without which (or beyond 64 bits) it counts as empty.  Names
   may hold equals signs or be empty.
   */
  lemma {:induction false} RowsResolve(lossy: bytes -> Text, frames: seq<Frame>, rows: seq<Option<IndexRow>>,
                                       index: Text)
    requires |frames| == |rows|
    requires forall i :: 0 <= i < |rows| ==> Shows(lossy, frames[i], rows[i])
    ensures var k := FirstNamed(rows, index);
            Resolve(lossy, frames, index) ==
            if k == |rows| then Err(Protocol) else
              match rows[k].value.dim
              case None => Err(Protocol)
              case Some(dim) =>
                if dim >= 0x1_0000_0000 then Err(Protocol) else
                  match rows[k].value.count
                  case None => Ok((dim, 0))
                  case Some(n) => if n < 0x1_0000_0000_0000_0000 then Ok((dim, n)) else Ok((dim, 0))
    decreases |rows|
  {
    hide Words, PrintRow, SetFields, Printable;
    if rows != [] {
      assert Shows(lossy, frames[0], rows[0]);
      if rows[0].Some? {
        PrintedFields(rows[0].value);
      }
      assert forall i :: 0 <= i < |rows[1..]| ==> rows[1..][i] == rows[i + 1] && frames[1..][i] == frames[i + 1];
      RowsResolve(lossy, frames[1..], rows[1..], index);
    }
  }
}

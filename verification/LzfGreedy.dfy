/** What the compressor writes: a greedy reading of the input.  At each place the table names one
    earlier place to look at; the longest match there is taken if there is one, and otherwise one
    byte is copied.  The table remembers, for each hash of three bytes, the latest place that was
    entered, and before that whatever it held. */
module LzfGreedy {
  import opened Bytes
  import opened LzfFormat

  const HSIZE := 65536

  type Table = t: seq<int> | |t| == HSIZE witness seq(HSIZE, _ => 0)

  type Length = n: nat | 3 <= n <= MAX_REF witness 3

  /** One literal byte, or a match with the text from `ref` on. */
  datatype Choice = Byte | Match(ref: nat, len: Length) {
    function Size(): nat { if Byte? then 1 else len }
  }

  function HashOf(a: int, b: int, c: int): (s: nat)
    ensures s < HSIZE
  {
    var v := a * 0x1_0000 + b * 0x100 + c;
    (v / 0x100 - 5 * v) % HSIZE
  }

  /** The hash of the three bytes at `p`. */
  function Slot(input: seq<byte>, p: nat): (s: nat)
    requires p + 2 < |input|
    ensures s < HSIZE
  {
    HashOf(input[p], input[p + 1], input[p + 2])
  }

  /** How far the choices read. */
  function Reach(cs: seq<Choice>): nat {
    if cs == [] then 0 else Reach(cs[..|cs| - 1]) + cs[|cs| - 1].Size()
  }

  function Enter(input: seq<byte>, t: Table, p: nat): Table
    requires p + 2 < |input|
  {
    t[Slot(input, p) := p]
  }

  /** The table after the choices: every place where a choice was made is entered, and the last two
      bytes of a match, as long as three bytes are left. */
  function TableAfter(input: seq<byte>, table: Table, cs: seq<Choice>): Table {
    if cs == [] then table else
    var front, c := cs[..|cs| - 1], cs[|cs| - 1];
    var t, p := TableAfter(input, table, front), Reach(front);
    var q := p + c.Size();
    if p + 2 >= |input| then t
    else if c.Byte? || q + 2 >= |input| then Enter(input, t, p)
    else Enter(input, Enter(input, Enter(input, t, p), q - 2), q - 1)
  }

  /** A match may start at `r`: it is near enough, not at the very start, and three bytes agree. */
  predicate Candidate(input: seq<byte>, r: int, p: nat) {
    && 0 < r < p && p - r <= MAX_OFF && p + 4 < |input|
    && input[r] == input[p] && input[r + 1] == input[p + 1] && input[r + 2] == input[p + 2]
  }

  /** How long a match may be when `left` bytes are left.  The two cases of 19 come from sixteen
      comparisons that are made without looking at the limit. */
  function Limit(left: nat): (n: nat)
    requires left >= 5
    ensures 3 <= n <= left && n <= MAX_REF
  {
    if left == 19 || left == 20 then 19 else if left - 2 > MAX_REF then MAX_REF else left - 2
  }

  /** The length up to which the texts from `r` and `p` agree, from `k` on and up to `limit`. */
  function Common(input: seq<byte>, r: nat, p: nat, k: nat, limit: nat): (n: nat)
    requires r < p && k <= limit && p + limit <= |input|
    ensures k <= n <= limit
    ensures forall i :: p + k <= i < p + n ==> input[i] == input[i - (p - r)]
    ensures n < limit ==> input[r + n] != input[p + n]
    decreases limit - k
  {
    if k < limit && input[r + k] == input[p + k] then Common(input, r, p, k + 1, limit) else k
  }

  lemma {:induction false} CommonUnique(input: seq<byte>, r: nat, p: nat, k: nat, limit: nat, n: nat)
    requires r < p && k <= n <= limit && p + limit <= |input|
    requires forall i :: p + k <= i < p + n ==> input[i] == input[i - (p - r)]
    requires n < limit ==> input[r + n] != input[p + n]
    ensures n == Common(input, r, p, k, limit)
    decreases limit - k
  {
    if k < n {
      assert input[p + k] == input[p + k - (p - r)];
      CommonUnique(input, r, p, k + 1, limit, n);
    }
  }

  function Chosen(input: seq<byte>, table: Table, cs: seq<Choice>): (c: Choice)
    requires Reach(cs) < |input|
    ensures Reach(cs) + c.Size() <= |input|
  {
    var p := Reach(cs);
    if p + 2 >= |input| then Byte else
    var r := TableAfter(input, table, cs)[Slot(input, p)];
    if Candidate(input, r, p) then Match(r, Common(input, r, p, 3, Limit(|input| - p))) else Byte
  }

  /** The choices, continued to the end of the input. */
  function Parse(input: seq<byte>, table: Table, cs: seq<Choice>): seq<Choice>
    decreases |input| - Reach(cs)
  {
    if Reach(cs) >= |input| then cs
    else ReachNext(cs, Chosen(input, table, cs)); Parse(input, table, cs + [Chosen(input, table, cs)])
  }

  lemma ReachNext(cs: seq<Choice>, c: Choice)
    ensures Reach(cs + [c]) == Reach(cs) + c.Size()
  {
    assert (cs + [c])[..|cs|] == cs;
  }

  // ------------------------------------------------------------------- the choices as tokens

  /** The choice can be carried out at `p`. */
  ghost predicate Possible(input: seq<byte>, p: nat, c: Choice) {
    && p + c.Size() <= |input|
    && (c.Match? ==>
          && c.ref < p && p - c.ref <= MAX_OFF
          && forall i :: p <= i < p + c.len ==> input[i] == input[i - (p - c.ref)])
  }

  ghost predicate Legal(input: seq<byte>, cs: seq<Choice>) {
    cs == [] || (Legal(input, cs[..|cs| - 1]) && Possible(input, Reach(cs[..|cs| - 1]), cs[|cs| - 1]))
  }

  lemma ChosenPossible(input: seq<byte>, table: Table, cs: seq<Choice>)
    requires Reach(cs) < |input|
    ensures Possible(input, Reach(cs), Chosen(input, table, cs))
  {
    hide TableAfter, Reach, Slot;
    var c := Chosen(input, table, cs);
    if c.Match? {
      var p := Reach(cs);
      forall i | p <= i < p + c.len ensures input[i] == input[i - (p - c.ref)] {
        assert i < p + 3 ==> i == p || i == p + 1 || i == p + 2;
      }
    }
  }

  lemma LegalSnoc(input: seq<byte>, cs: seq<Choice>, c: Choice)
    ensures Legal(input, cs + [c]) <==> Legal(input, cs) && Possible(input, Reach(cs), c)
  {
    hide Possible, Reach;
    assert (cs + [c])[..|cs|] == cs;
  }

  /** The last token is a literal that takes another byte. */
  predicate Open(ts: seq<Token>) {
    ts != [] && ts[|ts| - 1].Literal? && |ts[|ts| - 1].bytes| < MAX_LIT
  }

  /** One more literal byte. */
  function WithByte(ts: seq<Token>, b: byte): seq<Token> {
    if Open(ts) then ts[..|ts| - 1] + [Literal(ts[|ts| - 1].bytes + [b])] else ts + [Literal([b])]
  }

  ghost function TokensWith(input: seq<byte>, p: nat, ts: seq<Token>, c: Choice): seq<Token>
    requires Possible(input, p, c)
  {
    if c.Byte? then WithByte(ts, input[p]) else ts + [BackRef(p - c.ref - 1, c.len)]
  }

  /** The tokens that the choices make: literal bytes are gathered in runs of up to 32. */
  ghost function Tokens(input: seq<byte>, cs: seq<Choice>): seq<Token>
    requires Legal(input, cs)
  {
    if cs == [] then []
    else TokensWith(input, Reach(cs[..|cs| - 1]), Tokens(input, cs[..|cs| - 1]), cs[|cs| - 1])
  }

  lemma TokensNext(input: seq<byte>, cs: seq<Choice>, c: Choice)
    requires Legal(input, cs) && Possible(input, Reach(cs), c)
    ensures Legal(input, cs + [c]) && Tokens(input, cs + [c]) == TokensWith(input, Reach(cs), Tokens(input, cs), c)
  {
    hide Possible, Reach, TokensWith;
    LegalSnoc(input, cs, c);
    assert (cs + [c])[..|cs|] == cs;
  }

  /** A literal at the end that is one byte longer stands for one byte more. */
  lemma {:induction false} ExpandLonger(text: seq<byte>, ts: seq<Token>, b: byte)
    requires InRange(text, ts) && ts != [] && ts[|ts| - 1].Literal?
    ensures var longer := ts[..|ts| - 1] + [Literal(ts[|ts| - 1].bytes + [b])];
            InRange(text, longer) && Expand(text, longer) == Expand(text, ts) + [b]
    decreases |ts|
  {
    var longer := ts[..|ts| - 1] + [Literal(ts[|ts| - 1].bytes + [b])];
    if |ts| == 1 {
      assert ts[1..] == [] && longer[1..] == [];
    } else {
      assert longer[1..] == ts[1..][..|ts| - 2] + [Literal(ts[1..][|ts| - 2].bytes + [b])];
      ExpandLonger(ts[0].Apply(text), ts[1..], b);
    }
  }

  lemma WithByteEncodes(ts: seq<Token>, text: seq<byte>, b: byte)
    requires Encodes(ts, text)
    ensures Encodes(WithByte(ts, b), text + [b])
  {
    if Open(ts) { ExpandLonger([], ts, b); } else { EncodesSnoc(ts, text, Literal([b])); }
  }

  lemma ChoiceEncodes(input: seq<byte>, p: nat, ts: seq<Token>, c: Choice)
    requires p <= |input| && Encodes(ts, input[..p]) && Possible(input, p, c)
    ensures Encodes(TokensWith(input, p, ts, c), input[..p + c.Size()])
  {
    hide Encodes, Serialise, WithByte;
    if c.Byte? {
      WithByteEncodes(ts, input[..p], input[p]);
      assert input[..p] + [input[p]] == input[..p + 1];
    } else {
      CopyBackRepeats(input, p, p - c.ref - 1, c.len);
      EncodesSnoc(ts, input[..p], BackRef(p - c.ref - 1, c.len));
    }
  }

  /** The tokens stand for the input that has been read. */
  lemma {:induction false} LegalEncodes(input: seq<byte>, cs: seq<Choice>)
    requires Legal(input, cs)
    ensures Reach(cs) <= |input| && Encodes(Tokens(input, cs), input[..Reach(cs)])
  {
    hide TokensWith, Encodes;
    if cs == [] {
      EncodesNothing();
      assert input[..0] == [];
    } else {
      LegalEncodes(input, cs[..|cs| - 1]);
      ChoiceEncodes(input, Reach(cs[..|cs| - 1]), Tokens(input, cs[..|cs| - 1]), cs[|cs| - 1]);
    }
  }

  lemma EncodesNothing()
    ensures Encodes([], [])
  {
  }

  // ----------------------------------------------------------------------------- the stream

  lemma {:induction false} ParseLegal(input: seq<byte>, table: Table, cs: seq<Choice>)
    requires Legal(input, cs) && Reach(cs) <= |input|
    ensures Legal(input, Parse(input, table, cs)) && Reach(Parse(input, table, cs)) == |input|
    decreases |input| - Reach(cs)
  {
    hide Chosen, Possible;
    if Reach(cs) < |input| {
      var c := Chosen(input, table, cs);
      ChosenPossible(input, table, cs);
      LegalSnoc(input, cs, c);
      ReachNext(cs, c);
      ParseLegal(input, table, cs + [c]);
    }
  }

  lemma ParseNext(input: seq<byte>, table: Table, cs: seq<Choice>)
    requires Legal(input, cs) && Reach(cs) < |input|
    ensures var next := cs + [Chosen(input, table, cs)];
            && Legal(input, next) && Reach(next) == Reach(cs) + Chosen(input, table, cs).Size() <= |input|
            && Parse(input, table, next) == Parse(input, table, cs)
            && Possible(input, Reach(cs), Chosen(input, table, cs))
            && Tokens(input, next) == TokensWith(input, Reach(cs), Tokens(input, cs), Chosen(input, table, cs))
  {
    hide Chosen, Possible, TokensWith;
    var c := Chosen(input, table, cs);
    ChosenPossible(input, table, cs);
    LegalSnoc(input, cs, c);
    ReachNext(cs, c);
    TokensNext(input, cs, c);
  }

  /** What the choices have written, with every run closed. */
  ghost function Written(input: seq<byte>, cs: seq<Choice>): seq<byte>
    requires Legal(input, cs)
  {
    LegalEncodes(input, cs);
    Serialise(Tokens(input, cs))
  }

  /** The whole stream, which does not depend on the room. */
  ghost function Stream(input: seq<byte>, table: Table): (s: seq<byte>)
    ensures Encoded(s, input)
  {
    ParseLegal(input, table, []);
    LegalEncodes(input, Parse(input, table, []));
    assert input[..|input|] == input;
    Written(input, Parse(input, table, []))
  }

  lemma StreamSome(input: seq<byte>, table: Table)
    ensures input != [] ==> Stream(input, table) != []
  {
    if Stream(input, table) == [] {
      EncodedEmpty();
      DecodeIff([], input, |input|);
      DecodeIff([], [], |input|);
    }
  }

  /** The header that is reserved when no run is open. */
  ghost function Header(input: seq<byte>, cs: seq<Choice>): nat
    requires Legal(input, cs)
  {
    if Open(Tokens(input, cs)) then 0 else 1
  }

  /** The tests on the room succeed from here on: four bytes and more before a match, one before a
      literal byte, and three at the end of the main loop. */
  ghost predicate Roomy(input: seq<byte>, table: Table, cs: seq<Choice>, outLen: nat)
    requires Legal(input, cs)
    decreases |input| - Reach(cs)
  {
    if Reach(cs) + 2 >= |input| then |Written(input, cs)| + Header(input, cs) + 3 <= outLen
    else
      var c := Chosen(input, table, cs);
      ParseNext(input, table, cs);
      && |Written(input, cs)| + (if c.Match? then 4 else Header(input, cs)) < outLen
      && Roomy(input, table, cs + [c], outLen)
  }

  /** The result of the compressor: the stream if there is room, and nothing otherwise. */
  ghost function Packed(input: seq<byte>, table: Table, outLen: nat): (s: seq<byte>)
    ensures s != [] ==> Encoded(s, input)
  {
    if input != [] && outLen > 0 && Roomy(input, table, [], outLen) then Stream(input, table) else []
  }
}

/**
 * The repeating-key XOR cipher of src/main.rs.
 *
 * A Rust `char` is a Unicode scalar value, which is exactly what a Dafny
 * `char` is, so a Rust `&str` or `String` is modelled as a `string`
 * (a sequence of scalar values, counted in characters, not UTF-8 bytes).
 */
module XorCipher {
  import opened Wrappers
  import opened Bitwise

  /** Rust's `u32`. */
  type U32 = x: nat | x < 0x1_0000_0000

  /** `c as u32`: the scalar value of a character. */
  function Code(c: char): U32
  {
    c as int
  }

  /** A value `char::from_u32` accepts: at most 0x10FFFF and not a surrogate (0xD800 to 0xDFFF). */
  predicate IsScalarValue(v: nat)
  {
    v <= 0x10FFFF && !(0xD800 <= v <= 0xDFFF)
  }

  /** `char::from_u32`: the character with scalar value `v`, if there is one. */
  function FromU32(v: U32): (r: Option<char>)
    ensures r.Some? <==> IsScalarValue(v)
    ensures r.Some? ==> Code(r.value) == v
  {
    if IsScalarValue(v) then Some(v as char) else None
  }

  /** `l ^ r` on `u32`; the operands are below 2^32, so the result is too and nothing wraps. */
  function XorU32(l: U32, r: U32): U32
  {
    Pow2Values();
    XorBelowPow2(l, r, 32);
    Xor(l, r)
  }

  /** The error of `xor_chars`; the source renders it as a message, the model keeps the offending value. */
  datatype XorError = InvalidScalarValue(value: nat)

  /** `xor_chars`: XOR the scalar values of two characters and convert the result back to a character. */
  function XorChars(l: char, r: char): (res: Result<char, XorError>)
    ensures res.Success? <==> IsScalarValue(Xor(Code(l), Code(r)))
    ensures res.Success? ==> Code(res.value) == Xor(Code(l), Code(r))
    ensures res.Failure? ==> res.error == InvalidScalarValue(Xor(Code(l), Code(r)))
  {
    var x := XorU32(Code(l), Code(r));
    match FromU32(x)
    case Some(c) => Success(c)
    case None => Failure(InvalidScalarValue(x))
  }

  /** XOR of two scalar values never reaches bit 21, so `xor_chars` fails exactly on a surrogate or on 0x110000 to 0x1FFFFF. */
  lemma XorCharsFailsExactly(l: char, r: char)
    ensures Xor(Code(l), Code(r)) < 0x20_0000
    ensures XorChars(l, r).Failure? <==>
              var x := Xor(Code(l), Code(r)); 0xD800 <= x <= 0xDFFF || 0x11_0000 <= x < 0x20_0000
  {
    Pow2Values();
    XorBelowPow2(Code(l), Code(r), 21);
  }

  /** Two characters below U+8000 always XOR to a valid character. */
  lemma XorCharsBelow8000(l: char, r: char)
    requires Code(l) < 0x8000 && Code(r) < 0x8000
    ensures XorChars(l, r).Success?
  {
    Pow2Values();
    XorBelowPow2(Code(l), Code(r), 15);
  }

  /** `xor_chars` is self-inverse: XOR-ing the result again with the same key character gives back the original. */
  lemma XorCharsInvolutive(c: char, k: char)
    ensures XorChars(c, k).Success? ==> XorChars(XorChars(c, k).value, k) == Success(c)
  {
    if XorChars(c, k).Success? {
      XorSelfInverse(Code(c), Code(k));
    }
  }

  /** The boundary test: U+10FFFF XOR U+0001 is U+10FFFE, and XOR-ing with U+0001 again gives U+10FFFF back. */
  lemma XorCharsMaxScalar()
    ensures XorChars('\U{10FFFF}', '\U{0001}') == Success('\U{10FFFE}')
    ensures XorChars('\U{10FFFE}', '\U{0001}') == Success('\U{10FFFF}')
  {
    assert Pow2(1) == 2;
    XorDisjoint(0x8_7FFF, 1, 1);
    XorSelfInverse(0x10_FFFE, 1);
  }

  /** Two valid characters can XOR to a surrogate: U+D000 XOR U+0800 is 0xD800, and `xor_chars` fails with that value. */
  lemma XorCharsSurrogateCollision()
    ensures XorChars('\U{D000}', '\U{0800}') == Failure(InvalidScalarValue(0xD800))
  {
    Pow2Values();
    XorDisjoint(0xD, 0x800, 12);
  }

  /** Two valid characters can XOR past U+10FFFF: U+100000 XOR U+FFFFF is 0x1FFFFF, and `xor_chars` fails with that value. */
  lemma XorCharsAboveMaxScalar()
    ensures XorChars('\U{100000}', '\U{FFFFF}') == Failure(InvalidScalarValue(0x1F_FFFF))
  {
    Pow2Values();
    XorDisjoint(1, 0xF_FFFF, 20);
  }

  /** Enciphering `c` with `k` succeeds and deciphering the result with `k` gives `c` back. */
  predicate RoundTrips(c: char, k: char)
  {
    XorChars(c, k).Success? && XorChars(XorChars(c, k).value, k) == Success(c)
  }

  /** The list test: 'a', 'b', 'c' and 'λ' each round-trip under the key 'a'. */
  lemma XorCharsListRoundTrips()
    ensures RoundTrips('a', 'a') && RoundTrips('b', 'a') && RoundTrips('c', 'a') && RoundTrips('\U{03BB}', 'a')
  {
    XorCharsBelow8000('a', 'a');
    XorCharsInvolutive('a', 'a');
    XorCharsBelow8000('b', 'a');
    XorCharsInvolutive('b', 'a');
    XorCharsBelow8000('c', 'a');
    XorCharsInvolutive('c', 'a');
    XorCharsBelow8000('\U{03BB}', 'a');
    XorCharsInvolutive('\U{03BB}', 'a');
  }

  /** The key character paired with sentence position `i`: the key repeats from its first character. */
  function KeyAt(key: string, i: nat): char
    requires |key| > 0
  {
    key[i % |key|]
  }

  /** The `expect` panic in `cipher`: the sentence position whose pairing failed, and the failure. */
  datatype CipherPanic = CipherPanic(position: nat, error: XorError)

  /**
   * `collect` of the mapped sentence into a `String`: the characters in order,
   * or, if some pairing failed, the panic at the first position that failed.
   */
  function Collect(results: seq<Result<char, XorError>>): (r: Result<string, CipherPanic>)
    ensures r.Success? <==> forall i :: 0 <= i < |results| ==> results[i].Success?
    ensures r.Success? ==> |r.value| == |results|
    ensures r.Success? ==> forall i :: 0 <= i < |results| ==> results[i] == Success(r.value[i])
    ensures r.Failure? ==>
              && r.error.position < |results|
              && (forall j :: 0 <= j < r.error.position ==> results[j].Success?)
              && results[r.error.position] == Failure(r.error.error)
  {
    if |results| == 0 then Success([])
    else
      match results[0]
      case Failure(e) => Failure(CipherPanic(0, e))
      case Success(c) =>
        match Collect(results[1..])
        case Failure(CipherPanic(p, e)) => Failure(CipherPanic(p + 1, e))
        case Success(rest) => Success([c] + rest)
  }

  /** The sentence mapped through `xor_chars` with the cycled key: entry i pairs `sentence[i]` with `key[i mod |key|]`. */
  function Pairings(sentence: string, key: string): (rs: seq<Result<char, XorError>>)
    requires |key| > 0
    ensures |rs| == |sentence|
    ensures forall i :: 0 <= i < |sentence| ==> rs[i] == XorChars(sentence[i], KeyAt(key, i))
  {
    seq(|sentence|, i requires 0 <= i < |sentence| => XorChars(sentence[i], KeyAt(key, i)))
  }

  /** Every pairing of the sentence with the repeated key is a valid character. */
  predicate AllPairsValid(sentence: string, key: string)
  {
    |key| > 0 && forall i :: 0 <= i < |sentence| ==> XorChars(sentence[i], KeyAt(key, i)).Success?
  }

  /**
   * What `cipher(sentence, key)` returns, or where it panics.
   * An empty key gives the empty string. Otherwise character i of the output is
   * `xor_chars(sentence[i], key[i mod |key|])`, and the first position whose
   * pairing is not a valid character ends the call.
   */
  function Ciphered(sentence: string, key: string): (r: Result<string, CipherPanic>)
    ensures |key| == 0 ==> r == Success([])
    ensures |key| > 0 ==> (r.Success? <==> AllPairsValid(sentence, key))
    ensures |key| > 0 && r.Success? ==> |r.value| == |sentence|
    ensures |key| > 0 && r.Success? ==>
              forall i :: 0 <= i < |sentence| ==> XorChars(sentence[i], KeyAt(key, i)) == Success(r.value[i])
    ensures r.Failure? ==>
              && |key| > 0
              && r.error.position < |sentence|
              && (forall j :: 0 <= j < r.error.position ==> XorChars(sentence[j], KeyAt(key, j)).Success?)
              && XorChars(sentence[r.error.position], KeyAt(key, r.error.position)) == Failure(r.error.error)
  {
    if |key| == 0 then Success([]) else Collect(Pairings(sentence, key))
  }

  /** A string that pairs position-wise with the sentence is what the cipher returns. */
  lemma CipheredMatches(sentence: string, key: string, output: string)
    requires |key| > 0 && |output| == |sentence|
    requires forall j :: 0 <= j < |sentence| ==> XorChars(sentence[j], KeyAt(key, j)) == Success(output[j])
    ensures Ciphered(sentence, key) == Success(output)
  {
    assert AllPairsValid(sentence, key);
    var r := Ciphered(sentence, key).value;
    forall j | 0 <= j < |r|
      ensures r[j] == output[j]
    {
      assert XorChars(sentence[j], KeyAt(key, j)) == Success(r[j]);
    }
    assert r == output;
  }

  /** If every pairing before position i is valid and the one at i is not, the cipher panics at i. */
  lemma CipheredFailsAt(sentence: string, key: string, i: nat, e: XorError)
    requires |key| > 0 && i < |sentence|
    requires forall j :: 0 <= j < i ==> XorChars(sentence[j], KeyAt(key, j)).Success?
    requires XorChars(sentence[i], KeyAt(key, i)) == Failure(e)
    ensures Ciphered(sentence, key) == Failure(CipherPanic(i, e))
  {
  }

  /** A remainder is determined by any quotient-remainder decomposition. */
  lemma ModUnique(x: int, n: int, q: int, r: int)
    requires n > 0 && 0 <= r < n && x == q * n + r
    ensures x % n == r
  {
    var d := q - x / n;
    assert d * n == x % n - r;
  }

  /** Counting one further wraps the remainder back to 0 after n - 1. */
  lemma ModNext(i: nat, n: nat)
    requires n > 0
    ensures (i + 1) % n == if i % n + 1 == n then 0 else i % n + 1
  {
    if i % n + 1 == n {
      ModUnique(i + 1, n, i / n + 1, 0);
    } else {
      ModUnique(i + 1, n, i / n, i % n + 1);
    }
  }

  /** One step of the cycling key iterator: after the key's last character it is back at the first. */
  function NextCursor(cursor: nat, n: nat, ghost i: nat): (next: nat)
    requires n > 0 && cursor == i % n
    ensures next == (i + 1) % n
  {
    ModNext(i, n);
    if cursor + 1 == n then 0 else cursor + 1
  }

  /**
   * `cipher`: walks the sentence once, taking the next character of a key
   * iterator that restarts at the key's first character after its last.
   */
  method Cipher(sentence: string, key: string) returns (r: Result<string, CipherPanic>)
    ensures r == Ciphered(sentence, key)
  {
    if |key| == 0 {
      return Success([]);
    }
    var output: string := [];
    var cursor: nat := 0;  // where the cycling key iterator stands within key
    var i := 0;
    while i < |sentence|
      invariant i <= |sentence| && |output| == i
      invariant cursor == i % |key|
      invariant forall j :: 0 <= j < i ==> XorChars(sentence[j], KeyAt(key, j)) == Success(output[j])
    {
      var keyChar := key[cursor];
      assert keyChar == KeyAt(key, i);
      cursor := NextCursor(cursor, |key|, i);
      var x := XorChars(sentence[i], keyChar);
      if x.Failure? {
        CipheredFailsAt(sentence, key, i, x.error);
        return Failure(CipherPanic(i, x.error));
      }
      output := output + [x.value];
      i := i + 1;
    }
    CipheredMatches(sentence, key, output);
    return Success(output);
  }

  /** Involution: with a non-empty key, deciphering a ciphertext the cipher produced gives back the sentence. */
  lemma CipheredInvolutive(sentence: string, key: string)
    requires |key| > 0 && Ciphered(sentence, key).Success?
    ensures Ciphered(Ciphered(sentence, key).value, key) == Success(sentence)
  {
    var c := Ciphered(sentence, key).value;
    forall i | 0 <= i < |c|
      ensures XorChars(c[i], KeyAt(key, i)) == Success(sentence[i])
    {
      XorCharsInvolutive(sentence[i], KeyAt(key, i));
    }
    CipheredMatches(c, key, sentence);
  }

  /** Every character of `s` lies below U+8000. */
  predicate Below8000(s: string)
  {
    forall i :: 0 <= i < |s| ==> Code(s[i]) < 0x8000
  }

  /** A sentence and a non-empty key that both lie below U+8000 always encipher, and the ciphertext deciphers back. */
  lemma RoundTripsBelow8000(sentence: string, key: string)
    requires |key| > 0 && Below8000(sentence) && Below8000(key)
    ensures Ciphered(sentence, key).Success?
    ensures Ciphered(Ciphered(sentence, key).value, key) == Success(sentence)
  {
    forall i | 0 <= i < |sentence|
      ensures XorChars(sentence[i], KeyAt(key, i)).Success?
    {
      XorCharsBelow8000(sentence[i], KeyAt(key, i));
    }
    CipheredInvolutive(sentence, key);
  }

  /** A string glued from two strings below U+8000 lies below U+8000. */
  lemma Below8000Concat(a: string, b: string)
    requires Below8000(a) && Below8000(b)
    ensures Below8000(a + b)
  {
  }

  /** The lyric line of the song test lies below U+8000. */
  lemma SongSentenceBelow8000()
    ensures Below8000("Hey Mister, Tambourine Man, play a song for me.")
  {
    var s1, s2 := "Hey Mister, Tambourine", " Man, play a song for me.";
    assert Below8000(s1);
    assert Below8000(s2);
    Below8000Concat(s1, s2);
    assert "Hey Mister, Tambourine Man, play a song for me." == s1 + s2;
  }

  /** The first half of the key of the song test lies below U+8000. */
  lemma SongKeyHeadBelow8000()
    ensures Below8000("youthought this was gona b easy ")
  {
  }

  /** The second half of the key of the song test lies below U+8000. */
  lemma SongKeyTailBelow8000()
    ensures Below8000("but it ain't wasy. buum shaka lakw.")
  {
  }

  /** The key of the song test lies below U+8000. */
  lemma SongKeyBelow8000(key: string)
    requires key == "youthought this was gona b easy but it ain't wasy. buum shaka lakw."
    ensures Below8000(key)
  {
    SongKeyHeadBelow8000();
    SongKeyTailBelow8000();
    assert key == "youthought this was gona b easy " + "but it ain't wasy. buum shaka lakw.";
    Below8000Concat("youthought this was gona b easy ", "but it ain't wasy. buum shaka lakw.");
  }

  /** The song test: the lyric line enciphers under the long key, and deciphering gives it back exactly. */
  lemma SongRoundTrips(sentence: string, key: string)
    requires sentence == "Hey Mister, Tambourine Man, play a song for me."
    requires key == "youthought this was gona b easy but it ain't wasy. buum shaka lakw."
    ensures Ciphered(sentence, key).Success?
    ensures Ciphered(Ciphered(sentence, key).value, key) == Success(sentence)
  {
    SongSentenceBelow8000();
    SongKeyBelow8000(key);
    RoundTripsBelow8000(sentence, key);
  }
}

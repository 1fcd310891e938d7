/**
 * The character tokenizer and the next-character window dataset of the small language-model
 * experiment (`CharTokenizer` and `TextDataset`, which `ml_experiments/model.py` and
 * `ml_experiments/script.py` define identically). The transformer itself is not modelled.
 */
module CharModel {
  import opened Wrappers

  // ---------------------------------------------------------------------------------
  // The vocabulary: `sorted(list(set(text)))`.

  /** Strictly increasing by code point, which is how Python orders one-character strings. */
  predicate Increasing(s: seq<char>) {
    forall i, j :: 0 <= i < j < |s| ==> s[i] < s[j]
  }

  /** `c` put into its place in an increasing sequence, unless it is already there. */
  function Insert(s: seq<char>, c: char): (r: seq<char>)
    requires Increasing(s)
    ensures Increasing(r)
    ensures forall x :: x in r <==> x in s || x == c
    decreases |s|
  {
    if |s| == 0 then [c]
    else if c == s[0] then s
    else if c < s[0] then [c] + s
    else
      var rest := Insert(s[1..], c);
      assert forall x :: x in rest ==> s[0] < x by {
        forall x | x in rest ensures s[0] < x {
          if x != c {
            var j :| 0 <= j < |s[1..]| && s[1..][j] == x;
            assert s[j + 1] == x;
          }
        }
      }
      var r := [s[0]] + rest;
      assert forall i, j :: 0 <= i < j < |r| ==> r[i] < r[j] by {
        forall i, j | 0 <= i < j < |r| ensures r[i] < r[j] {
          assert r[j] == rest[j - 1] && r[j] in rest;
          if i > 0 {
            assert r[i] == rest[i - 1];
          }
        }
      }
      r
  }

  /** The distinct characters of `text`, in increasing order. */
  function Vocab(text: string): (r: seq<char>)
    ensures Increasing(r)
    ensures forall c :: c in r <==> c in text
    decreases |text|
  {
    if |text| == 0 then []
    else
      var init := text[..|text| - 1];
      assert forall c :: c in text <==> c in init || c == text[|text| - 1] by {
        assert text == init + [text[|text| - 1]];
      }
      Insert(Vocab(init), text[|text| - 1])
  }

  /** The first element of an increasing sequence is its least. */
  lemma HeadIsLeast(a: seq<char>, c: char)
    requires Increasing(a) && c in a
    ensures a[0] <= c
  {
    var j :| 0 <= j < |a| && a[j] == c;
    assert j == 0 || a[0] < a[j];
  }

  /** The tail of an increasing sequence holds everything but its first element. */
  lemma TailMembers(a: seq<char>, c: char)
    requires Increasing(a) && |a| > 0
    ensures c in a[1..] <==> c in a && c != a[0]
  {
    if c in a[1..] {
      var j :| 0 <= j < |a| - 1 && a[1..][j] == c;
      assert a[0] < a[j + 1];
    }
    if c in a && c != a[0] {
      var j :| 0 <= j < |a| && a[j] == c;
      assert a[1..][j - 1] == c;
    }
  }

  /** There is only one increasing sequence of a given set of characters. */
  lemma {:induction false} IncreasingUnique(a: seq<char>, b: seq<char>)
    requires Increasing(a) && Increasing(b)
    requires forall c :: c in a <==> c in b
    ensures a == b
    decreases |a|
  {
    if |a| > 0 {
      assert a[0] in b;
      HeadIsLeast(a, b[0]);
      HeadIsLeast(b, a[0]);
      forall c ensures c in a[1..] <==> c in b[1..] {
        TailMembers(a, c);
        TailMembers(b, c);
      }
      IncreasingUnique(a[1..], b[1..]);
      assert a == [a[0]] + a[1..] && b == [b[0]] + b[1..];
    } else {
      HeadIn(b);
    }
  }

  lemma HeadIn(b: seq<char>)
    ensures |b| > 0 ==> b[0] in b
  {
  }

  /** The vocabulary is THE sorted list of the distinct characters: any increasing sequence
      of exactly the characters of the text is it. */
  lemma VocabIsSortedSet(text: string, s: seq<char>)
    requires Increasing(s) && forall c :: c in s <==> c in text
    ensures Vocab(text) == s
  {
    IncreasingUnique(Vocab(text), s);
  }

  // ---------------------------------------------------------------------------------
  // The tokenizer.

  /** `CharTokenizer`: `vocab_size` and the two dicts. */
  datatype Tokenizer = Tokenizer(vocabSize: nat, stoi: map<char, nat>, itos: map<nat, char>)

  /** `CharTokenizer(text)`: the `i`-th character of the vocabulary has code `i`. */
  function NewTokenizer(text: string): (t: Tokenizer)
    ensures t.vocabSize == |Vocab(text)|
    ensures forall c :: c in t.stoi <==> c in text
    ensures forall i: nat :: i in t.itos <==> i < t.vocabSize
  {
    var chars := Vocab(text);
    Tokenizer(|chars|,
              map i: nat | i < |chars| :: chars[i] := i,
              map i: nat | i < |chars| :: chars[i])
  }

  /** The code of a character is its position in the vocabulary. */
  lemma StoiAt(text: string, c: char)
    requires c in NewTokenizer(text).stoi
    ensures var chars := Vocab(text);
            NewTokenizer(text).stoi[c] < |chars| && chars[NewTokenizer(text).stoi[c]] == c
  {
    var chars := Vocab(text);
    var i: nat :| i < |chars| && chars[i] == c;
    assert NewTokenizer(text).stoi[chars[i]] == i;
  }

  /** `stoi` and `itos` are inverse bijections between the characters of the text and the
      codes `0 .. vocab_size - 1`. */
  lemma TokenizerBijection(text: string)
    ensures var t := NewTokenizer(text);
            && (forall c :: c in t.stoi ==> t.stoi[c] < t.vocabSize && t.itos[t.stoi[c]] == c)
            && (forall i :: i in t.itos ==> t.itos[i] in t.stoi && t.stoi[t.itos[i]] == i)
  {
    var t := NewTokenizer(text);
    var chars := Vocab(text);
    forall c | c in t.stoi ensures t.stoi[c] < t.vocabSize && t.itos[t.stoi[c]] == c {
      StoiAt(text, c);
    }
    forall i | i in t.itos ensures t.itos[i] in t.stoi && t.stoi[t.itos[i]] == i {
      assert t.stoi[chars[i]] == i;
    }
  }

  /** `stoi` numbers the characters in increasing order. */
  lemma StoiMonotone(text: string, c: char, d: char)
    requires c in NewTokenizer(text).stoi && d in NewTokenizer(text).stoi
    ensures c < d <==> NewTokenizer(text).stoi[c] < NewTokenizer(text).stoi[d]
  {
    var chars := Vocab(text);
    StoiAt(text, c);
    StoiAt(text, d);
    var i, j := NewTokenizer(text).stoi[c], NewTokenizer(text).stoi[d];
    if i < j {
      assert chars[i] < chars[j];
    } else if j < i {
      assert chars[j] < chars[i];
    }
  }

  /** `encode`: the code of each character; a character outside the vocabulary raises
      `KeyError`. */
  function Encode(t: Tokenizer, s: string): (r: Option<seq<nat>>)
    ensures r.Some? <==> forall i :: 0 <= i < |s| ==> s[i] in t.stoi
    ensures r.Some? ==> |r.value| == |s|
    decreases |s|
  {
    if |s| == 0 then Some([])
    else if s[0] !in t.stoi then None
    else
      match Encode(t, s[1..])
      case None => None
      case Some(rest) => Some([t.stoi[s[0]]] + rest)
  }

  /** `decode`: the characters of the codes, joined; a code outside the vocabulary raises
      `KeyError`. */
  function Decode(t: Tokenizer, l: seq<nat>): (r: Option<string>)
    ensures r.Some? <==> forall i :: 0 <= i < |l| ==> l[i] in t.itos
    ensures r.Some? ==> |r.value| == |l|
    decreases |l|
  {
    if |l| == 0 then Some([])
    else if l[0] !in t.itos then None
    else
      match Decode(t, l[1..])
      case None => None
      case Some(rest) => Some([t.itos[l[0]]] + rest)
  }

  /** The `i`-th code is the code of the `i`-th character. */
  lemma {:induction false} EncodeAt(t: Tokenizer, s: string, i: nat)
    requires Encode(t, s).Some? && i < |s|
    ensures s[i] in t.stoi && Encode(t, s).value[i] == t.stoi[s[i]]
    decreases i
  {
    if i > 0 {
      EncodeAt(t, s[1..], i - 1);
    }
  }

  /** The `i`-th character is the character of the `i`-th code. */
  lemma {:induction false} DecodeAt(t: Tokenizer, l: seq<nat>, i: nat)
    requires Decode(t, l).Some? && i < |l|
    ensures l[i] in t.itos && Decode(t, l).value[i] == t.itos[l[i]]
    decreases i
  {
    if i > 0 {
      DecodeAt(t, l[1..], i - 1);
    }
  }

  /** `itos` undoes `stoi`. */
  ghost predicate LeftInverse(t: Tokenizer) {
    forall c :: c in t.stoi ==> t.stoi[c] in t.itos && t.itos[t.stoi[c]] == c
  }

  /** `stoi` undoes `itos`. */
  ghost predicate RightInverse(t: Tokenizer) {
    forall i :: i in t.itos ==> t.itos[i] in t.stoi && t.stoi[t.itos[i]] == i
  }

  lemma {:induction false} DecodeAfterEncode(t: Tokenizer, s: string)
    requires LeftInverse(t) && forall i :: 0 <= i < |s| ==> s[i] in t.stoi
    ensures Encode(t, s).Some? && Decode(t, Encode(t, s).value) == Some(s)
    decreases |s|
  {
    if |s| > 0 {
      assert forall i :: 0 <= i < |s| - 1 ==> s[1..][i] == s[i + 1];
      DecodeAfterEncode(t, s[1..]);
      var rest := Encode(t, s[1..]).value;
      assert Encode(t, s).value == [t.stoi[s[0]]] + rest;
      assert ([t.stoi[s[0]]] + rest)[1..] == rest;
      assert s == [s[0]] + s[1..];
    }
  }

  lemma {:induction false} EncodeAfterDecode(t: Tokenizer, l: seq<nat>)
    requires RightInverse(t) && forall i :: 0 <= i < |l| ==> l[i] in t.itos
    ensures Decode(t, l).Some? && Encode(t, Decode(t, l).value) == Some(l)
    decreases |l|
  {
    if |l| > 0 {
      assert forall i :: 0 <= i < |l| - 1 ==> l[1..][i] == l[i + 1];
      EncodeAfterDecode(t, l[1..]);
      var rest := Decode(t, l[1..]).value;
      assert Decode(t, l).value == [t.itos[l[0]]] + rest;
      assert ([t.itos[l[0]]] + rest)[1..] == rest;
      assert l == [l[0]] + l[1..];
    }
  }

  /** Text over the vocabulary encodes to as many codes, each below `vocab_size`, and decodes
      back to itself. */
  lemma DecodeEncode(text: string, s: string)
    requires forall i :: 0 <= i < |s| ==> s[i] in text
    ensures var t := NewTokenizer(text);
            && Encode(t, s).Some?
            && |Encode(t, s).value| == |s|
            && (forall i :: 0 <= i < |s| ==> Encode(t, s).value[i] < t.vocabSize)
            && Decode(t, Encode(t, s).value) == Some(s)
  {
    var t := NewTokenizer(text);
    TokenizerBijection(text);
    DecodeAfterEncode(t, s);
    forall i | 0 <= i < |s| ensures Encode(t, s).value[i] < t.vocabSize {
      EncodeAt(t, s, i);
    }
  }

  /** Codes below `vocab_size` decode to text over the vocabulary and encode back to
      themselves. */
  lemma EncodeDecode(text: string, l: seq<nat>)
    requires forall i :: 0 <= i < |l| ==> l[i] < |Vocab(text)|
    ensures var t := NewTokenizer(text);
            && Decode(t, l).Some?
            && (forall i :: 0 <= i < |l| ==> Decode(t, l).value[i] in text)
            && Encode(t, Decode(t, l).value) == Some(l)
  {
    var t := NewTokenizer(text);
    TokenizerBijection(text);
    EncodeAfterDecode(t, l);
    forall i | 0 <= i < |l| ensures Decode(t, l).value[i] in text {
      DecodeAt(t, l, i);
    }
  }

  /** Encoding fails exactly on a character the tokenizer never saw. */
  lemma EncodeUnknown(text: string, s: string)
    ensures Encode(NewTokenizer(text), s).None? <==> exists i :: 0 <= i < |s| && s[i] !in text
  {
  }

  // ---------------------------------------------------------------------------------
  // The dataset.

  /** `TextDataset(data, block_size)`. */
  datatype TextDataset = TextDataset(data: seq<nat>, blockSize: nat)

  /** `__len__`: `len(data) - block_size`; a negative length makes `len()` raise. */
  function Length(d: TextDataset): (r: Option<nat>)
    ensures r.Some? <==> d.blockSize <= |d.data|
    ensures r.Some? ==> r.value + d.blockSize == |d.data|
  {
    if d.blockSize <= |d.data| then Some(|d.data| - d.blockSize) else None
  }

  /** `__getitem__(idx)` for an index the sampler draws from `range(len(dataset))`: the input
      window starting at `idx` and the window one position later, so that each input
      character's target is the character after it. */
  function GetItem(d: TextDataset, idx: nat): (r: (seq<nat>, seq<nat>))
    requires Length(d).Some? && idx < Length(d).value
    ensures |r.0| == d.blockSize && |r.1| == d.blockSize
    ensures forall j :: 0 <= j < d.blockSize ==> r.0[j] == d.data[idx + j] && r.1[j] == d.data[idx + j + 1]
  {
    (d.data[idx..idx + d.blockSize], d.data[idx + 1..idx + d.blockSize + 1])
  }

  /** The target window is the input window shifted by one: it drops the first input
      character and appends the character that follows the window. */
  lemma TargetsShift(d: TextDataset, idx: nat)
    requires Length(d).Some? && idx < Length(d).value
    ensures var (x, y) := GetItem(d, idx);
            d.blockSize > 0 ==> y == x[1..] + [d.data[idx + d.blockSize]]
  {
    var (x, y) := GetItem(d, idx);
    if d.blockSize > 0 {
      assert forall j :: 0 <= j < d.blockSize - 1 ==> y[j] == x[1..][j];
    }
  }

  /** Encoding a slice of the text gives the same slice of its codes. */
  lemma EncodeSlice(t: Tokenizer, text: string, lo: nat, hi: nat)
    requires lo <= hi <= |text| && Encode(t, text).Some?
    ensures Encode(t, text[lo..hi]) == Some(Encode(t, text).value[lo..hi])
  {
    var codes := Encode(t, text).value;
    var part := text[lo..hi];
    forall i | 0 <= i < |part| ensures part[i] in t.stoi {
      EncodeAt(t, text, lo + i);
    }
    assert Encode(t, part).Some?;
    var e := Encode(t, part).value;
    forall i | 0 <= i < |part| ensures e[i] == codes[lo..hi][i] {
      EncodeAt(t, text, lo + i);
      EncodeAt(t, part, i);
    }
    assert e == codes[lo..hi];
  }

  /** Over a tokenizer whose `itos` undoes `stoi`, a slice of the encoded text decodes to the
      same slice of the text. */
  lemma SliceDecodes(t: Tokenizer, text: string, lo: nat, hi: nat)
    requires LeftInverse(t) && Encode(t, text).Some? && lo <= hi <= |text|
    ensures Decode(t, Encode(t, text).value[lo..hi]) == Some(text[lo..hi])
  {
    EncodeSlice(t, text, lo, hi);
    var part := text[lo..hi];
    assert forall i :: 0 <= i < |part| ==> part[i] == text[lo + i];
    DecodeAfterEncode(t, part);
  }

  /** The input window at `idx` decodes to the text slice it came from. */
  lemma InputDecodes(t: Tokenizer, text: string, blockSize: nat, idx: nat)
    requires LeftInverse(t) && Encode(t, text).Some? && idx + blockSize < |text|
    ensures Decode(t, GetItem(TextDataset(Encode(t, text).value, blockSize), idx).0) ==
              Some(text[idx..idx + blockSize])
  {
    var codes := Encode(t, text).value;
    assert GetItem(TextDataset(codes, blockSize), idx).0 == codes[idx..idx + blockSize];
    SliceDecodes(t, text, idx, idx + blockSize);
  }

  /** The target window at `idx` decodes to the text slice one character later. */
  lemma TargetDecodes(t: Tokenizer, text: string, blockSize: nat, idx: nat)
    requires LeftInverse(t) && Encode(t, text).Some? && idx + blockSize < |text|
    ensures Decode(t, GetItem(TextDataset(Encode(t, text).value, blockSize), idx).1) ==
              Some(text[idx + 1..idx + blockSize + 1])
  {
    var codes := Encode(t, text).value;
    assert GetItem(TextDataset(codes, blockSize), idx).1 == codes[idx + 1..idx + blockSize + 1];
    SliceDecodes(t, text, idx + 1, idx + blockSize + 1);
  }

  /** Training on the encoded text: over a tokenizer whose `itos` undoes `stoi` (as
      `TokenizerBijection` shows for the one built from the text), every window decodes to
      the text slice it came from, and its targets to the slice one character later. */
  lemma WindowDecodes(t: Tokenizer, text: string, blockSize: nat, idx: nat)
    requires LeftInverse(t) && Encode(t, text).Some? && idx + blockSize < |text|
    ensures var d := TextDataset(Encode(t, text).value, blockSize);
            && Length(d) == Some(|text| - blockSize)
            && Decode(t, GetItem(d, idx).0) == Some(text[idx..idx + blockSize])
            && Decode(t, GetItem(d, idx).1) == Some(text[idx + 1..idx + blockSize + 1])
  {
    InputDecodes(t, text, blockSize, idx);
    TargetDecodes(t, text, blockSize, idx);
  }
}

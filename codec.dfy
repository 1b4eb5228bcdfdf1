/** The character vocabulary of bigram_llm.py: the sorted distinct characters
    of the training text, the two dictionaries that number them, and the
    `encode`/`decode` comprehensions built on those dictionaries.
    A missing dictionary key (Python's KeyError) is the `None` result. */
module Codec {
  import opened Optional

  /** No character occurs twice. */
  predicate Distinct(cs: seq<char>) {
    forall i, j :: 0 <= i < j < |cs| ==> cs[i] != cs[j]
  }

  /** Sorted by code point and free of duplicates: what `sorted(list(set(t)))` yields. */
  predicate StrictlySorted(cs: seq<char>) {
    forall i, j :: 0 <= i < j < |cs| ==> cs[i] < cs[j]
  }

  /** Adds `c` to a strictly sorted sequence at its place; a character
      already present is not added a second time (set semantics). */
  function Insert(cs: seq<char>, c: char): (r: seq<char>)
    requires StrictlySorted(cs)
    ensures StrictlySorted(r)
    ensures forall x :: x in r <==> x in cs || x == c
  {
    if cs == [] then [c]
    else if c < cs[0] then [c] + cs
    else if c == cs[0] then cs
    else
      var rest := Insert(cs[1..], c);
      assert forall k :: 0 <= k < |rest| ==> rest[k] in rest;
      [cs[0]] + rest
  }

  /** `characters = sorted(list(set(text)))`: every character of the text,
      once each, in increasing order. */
  function Characters(text: string): (cs: seq<char>)
    ensures StrictlySorted(cs)
    ensures forall c :: c in cs <==> c in text
  {
    if text == [] then []
    else
      var prefix := text[..|text| - 1];
      var cs := Characters(prefix);
      assert text == prefix + [text[|text| - 1]];
      Insert(cs, text[|text| - 1])
  }

  /** A strictly sorted sequence is determined by its set of elements, so
      `Characters` is THE sorted list of the distinct characters. */
  lemma {:induction false} SortedUnique(a: seq<char>, b: seq<char>)
    requires StrictlySorted(a) && StrictlySorted(b)
    requires forall c :: c in a <==> c in b
    ensures a == b
  {
    assert b != [] ==> b[0] in a;
    if a != [] {
      assert b != [] by { assert a[0] in b; }
      assert a[0] == b[0] by {
        assert a[0] in b;
        assert b[0] in a;
      }
      forall c
        ensures c in a[1..] <==> c in b[1..]
      {
        if c in a[1..] {
          assert c in b;
          assert c != b[0];
        }
        if c in b[1..] {
          assert c in a;
          assert c != a[0];
        }
      }
      SortedUnique(a[1..], b[1..]);
      assert a == [a[0]] + a[1..];
      assert b == [b[0]] + b[1..];
    }
  }

  /** `characters` is the only strictly sorted sequence holding exactly the
      characters of the text. */
  lemma CharactersIsSortedSet(text: string, cs: seq<char>)
    requires StrictlySorted(cs)
    requires forall c :: c in cs <==> c in text
    ensures Characters(text) == cs
  {
    SortedUnique(Characters(text), cs);
  }

  /** `s_to_i = { ch:i for i,ch in enumerate(characters) }` */
  function StoI(chars: seq<char>): (m: map<char, int>)
    requires Distinct(chars)
    ensures forall c :: c in m <==> c in chars
    ensures forall i :: 0 <= i < |chars| ==> chars[i] in m && m[chars[i]] == i
  {
    map i | 0 <= i < |chars| :: chars[i] := i
  }

  /** `i_to_s = { i:ch for i,ch in enumerate(characters) }` */
  function ItoS(chars: seq<char>): (m: map<int, char>)
    ensures forall i :: i in m <==> 0 <= i < |chars|
    ensures forall i :: 0 <= i < |chars| ==> m[i] == chars[i]
  {
    map i | 0 <= i < |chars| :: chars[i]
  }

  /** The two dictionaries are mutual inverses and the ids are exactly
      0 .. vocab_size - 1. */
  lemma MapsInverse(chars: seq<char>)
    requires Distinct(chars)
    ensures var stoi, itos := StoI(chars), ItoS(chars);
            && (forall c :: c in stoi ==> stoi[c] in itos && itos[stoi[c]] == c)
            && (forall i :: i in itos ==> itos[i] in stoi && stoi[itos[i]] == i)
  {
    var stoi, itos := StoI(chars), ItoS(chars);
    forall c | c in stoi
      ensures stoi[c] in itos && itos[stoi[c]] == c
    {
      var i :| 0 <= i < |chars| && chars[i] == c;
    }
  }

  /** Ids follow the sorted order of the characters. */
  lemma IdsFollowOrder(chars: seq<char>)
    requires StrictlySorted(chars)
    ensures Distinct(chars)
    ensures var stoi := StoI(chars);
            forall c, d :: c in stoi && d in stoi ==> (c < d <==> stoi[c] < stoi[d])
  {
    var stoi := StoI(chars);
    forall c, d | c in stoi && d in stoi
      ensures c < d <==> stoi[c] < stoi[d]
    {
      var i :| 0 <= i < |chars| && chars[i] == c;
      var j :| 0 <= j < |chars| && chars[j] == d;
    }
  }

  /** The vocabulary built from a text: `s_to_i` and `i_to_s` are mutual
      inverses, the keys of `s_to_i` are the characters of the text, the keys
      of `i_to_s` are exactly 0 .. vocab_size - 1, and ids follow the sorted
      order of the characters. */
  lemma VocabularyBijection(text: string)
    ensures var chars := Characters(text);
            Distinct(chars) &&
            var stoi, itos := StoI(chars), ItoS(chars);
            && (forall c :: c in stoi <==> c in text)
            && (forall i :: i in itos <==> 0 <= i < |chars|)
            && (forall c :: c in stoi ==> stoi[c] in itos && itos[stoi[c]] == c)
            && (forall i :: i in itos ==> itos[i] in stoi && stoi[itos[i]] == i)
            && (forall c, d :: c in stoi && d in stoi ==> (c < d <==> stoi[c] < stoi[d]))
  {
    var chars := Characters(text);
    IdsFollowOrder(chars);
    MapsInverse(chars);
  }

  /** `encode = lambda s: [s_to_i[c] for c in s]`; `None` when some character
      of `s` is not a key (the KeyError). */
  function Encode(stoi: map<char, int>, s: string): (r: Option<seq<int>>)
    ensures r.Some? <==> forall i :: 0 <= i < |s| ==> s[i] in stoi
    ensures r.Some? ==> |r.value| == |s| && forall i :: 0 <= i < |s| ==> r.value[i] == stoi[s[i]]
  {
    if s == [] then Some([])
    else if s[0] !in stoi then None
    else match Encode(stoi, s[1..])
      case None => None
      case Some(rest) => Some([stoi[s[0]]] + rest)
  }

  /** `decode = lambda n: ''.join([i_to_s[i] for i in n])`; `None` when some
      id is not a key (the KeyError). */
  function Decode(itos: map<int, char>, ids: seq<int>): (r: Option<string>)
    ensures r.Some? <==> forall i :: 0 <= i < |ids| ==> ids[i] in itos
    ensures r.Some? ==> |r.value| == |ids| && forall i :: 0 <= i < |ids| ==> r.value[i] == itos[ids[i]]
  {
    if ids == [] then Some([])
    else if ids[0] !in itos then None
    else match Decode(itos, ids[1..])
      case None => None
      case Some(rest) => Some([itos[ids[0]]] + rest)
  }

  /** For a string built from vocabulary characters, encoding succeeds, keeps
      the length, yields ids below vocab_size, and decoding gives the string back. */
  lemma EncodeDecode(text: string, s: string)
    requires forall i :: 0 <= i < |s| ==> s[i] in text
    ensures var chars := Characters(text);
            Distinct(chars) &&
            var e := Encode(StoI(chars), s);
            && e.Some?
            && |e.value| == |s|
            && (forall i :: 0 <= i < |s| ==> 0 <= e.value[i] < |chars|)
            && Decode(ItoS(chars), e.value) == Some(s)
  {
    var chars := Characters(text);
    IdsFollowOrder(chars);
    MapsInverse(chars);
    var e := Encode(StoI(chars), s);
    var d := Decode(ItoS(chars), e.value);
    assert d.value == s;
  }

  /** Every sequence of ids in 0 .. vocab_size - 1 decodes, and encoding the
      decoded text gives the ids back. */
  lemma DecodeEncode(text: string, ids: seq<int>)
    requires forall i :: 0 <= i < |ids| ==> 0 <= ids[i] < |Characters(text)|
    ensures var chars := Characters(text);
            Distinct(chars) &&
            var d := Decode(ItoS(chars), ids);
            && d.Some?
            && |d.value| == |ids|
            && Encode(StoI(chars), d.value) == Some(ids)
  {
    var chars := Characters(text);
    IdsFollowOrder(chars);
    MapsInverse(chars);
    var d := Decode(ItoS(chars), ids);
    var e := Encode(StoI(chars), d.value);
    assert e.value == ids;
  }

  /** `data = encode(text)` never raises: the vocabulary is built from the
      very text being encoded, so every id lies in 0 .. vocab_size - 1. */
  lemma EncodeTrainingText(text: string)
    ensures var chars := Characters(text);
            Distinct(chars) &&
            var e := Encode(StoI(chars), text);
            e.Some? && |e.value| == |text| &&
            forall i :: 0 <= i < |text| ==> 0 <= e.value[i] < |chars|
  {
    EncodeDecode(text, text);
  }
}

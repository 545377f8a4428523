/**
 * Permutation identities: `case:` followed by leb16(slot) leb16(value) for
 * each slot that varies (`perm_printid` in runners/bench_runner.c), and the
 * loop that turns such a suffix back into an explicit layer of literal
 * defines (the identifier parsing in `main`).
 */
module Identity {
  import opened Base
  import opened Leb16
  import opened Defines

  /** One varying slot and the value it had. */
  datatype Pair = Pair(slot: nat, value: int)

  predicate WellFormedPairs(pairs: seq<Pair>)
  {
    forall i :: 0 <= i < |pairs| ==> IsU64(pairs[i].slot)
  }

  /** The characters `perm_printid` writes after the colon. */
  function EncodePairs(pairs: seq<Pair>): (r: string)
    requires WellFormedPairs(pairs)
    ensures |r| >= 2 * |pairs|
    ensures |r| == 0 <==> |pairs| == 0
  {
    if |pairs| == 0 then ""
    else PairText(pairs[0]) + EncodePairs(pairs[1..])
  }

  /** Printing one more pair appends its two numbers. */
  lemma {:induction false} EncodePairsSnoc(pairs: seq<Pair>, p: Pair)
    requires WellFormedPairs(pairs) && IsU64(p.slot)
    ensures WellFormedPairs(pairs + [p])
    ensures EncodePairs(pairs + [p]) == EncodePairs(pairs) + PairText(p)
    decreases |pairs|
  {
    var ps := pairs + [p];
    if |pairs| == 0 {
      assert ps[1..] == [];
    } else {
      assert ps[1..] == pairs[1..] + [p];
      EncodePairsSnoc(pairs[1..], p);
      EncodeCons(pairs, ps, p);
    }
  }

  /** The characters one pair prints. */
  function PairText(p: Pair): (r: string)
    requires IsU64(p.slot)
    ensures |r| >= 2
  {
    Print(p.slot) + Print(ToU64(p.value))
  }

  lemma EncodeCons(pairs: seq<Pair>, ps: seq<Pair>, p: Pair)
    requires WellFormedPairs(pairs) && |pairs| > 0 && IsU64(p.slot) && ps == pairs + [p]
    requires EncodePairs(pairs[1..] + [p]) == EncodePairs(pairs[1..]) + PairText(p)
    ensures EncodePairs(ps) == EncodePairs(pairs) + PairText(p)
  {
    assert ps[1..] == pairs[1..] + [p];
    assert ps[0] == pairs[0];
    Regroup3(PairText(pairs[0]), EncodePairs(pairs[1..]), PairText(p));
  }

  lemma Regroup3(a: string, b: string, c: string)
    ensures a + (b + c) == a + b + c
  {
  }

  /** The smallest power of two that is at least x, from candidate p upward. */
  function NextPow2From(x: nat, p: nat): (r: nat)
    requires p >= 1
    ensures r >= x && r >= p
    decreases x - p
  {
    if p >= x then p else NextPow2From(x, 2 * p)
  }

  /** `1 << lfs_npw2(x)`: the smallest power of two that is at least x. */
  function NextPow2(x: nat): (r: nat)
    ensures r >= x && r >= 1
  {
    NextPow2From(x, 1)
  }

  /** The layer grown so that slot d exists, new entries null. */
  function Grow(layer: seq<Define>, d: nat): seq<Define>
  {
    if d < |layer| then layer else layer + seq(NextPow2(d + 1) - |layer|, _ => NullDefine)
  }

  /** Growing makes slot d exist, keeps the old entries and fills the rest with null defines. */
  lemma GrowContents(layer: seq<Define>, d: nat)
    ensures var grown := Grow(layer, d);
      && d < |grown| && |grown| >= |layer|
      && (forall i :: 0 <= i < |layer| ==> grown[i] == layer[i])
      && (forall i :: |layer| <= i < |grown| ==> grown[i] == NullDefine)
  {
  }

  /** `defines[d] = BENCH_LIT(v)` after growing: slot d exists and holds the literal. */
  function InstallOne(layer: seq<Define>, d: nat, v: int): (r: seq<Define>)
    ensures d < |r| && |r| >= |layer| && r[d] == LitDefine(v)
  {
    GrowContents(layer, d);
    Grow(layer, d)[d := LitDefine(v)]
  }

  /**
   * The decoding loop from position `pos`: read a slot and a value, stop when
   * the position did not move, otherwise install the literal (the value
   * read as `intmax_t`) and go on after them.
   */
  function DecodeFrom(s: string, pos: nat, layer: seq<Define>): (r: seq<Define>)
    ensures |r| >= |layer|
    decreases |s| - pos
  {
    var a := Parse(s, pos);
    var b := Parse(s, a.tail);
    if b.tail == pos then layer
    else DecodeFrom(s, b.tail, InstallOne(layer, a.value, ToI64(b.value)))
  }

  /** Installing one literal keeps every other slot, and the slots the growth added are null. */
  lemma InstallOneOthers(layer: seq<Define>, d: nat, v: int, i: nat)
    requires i < |InstallOne(layer, d, v)| && i != d
    ensures InstallOne(layer, d, v)[i] == if i < |layer| then layer[i] else NullDefine
  {
    GrowContents(layer, d);
  }

  /** The decoding loop of `main`, proved to compute DecodeFrom. */
  method ParseDefines(s: string, pos: nat) returns (layer: seq<Define>)
    ensures layer == DecodeFrom(s, pos, [])
  {
    layer := [];
    var at := pos;
    while true
      invariant DecodeFrom(s, at, layer) == DecodeFrom(s, pos, [])
      decreases |s| - at
    {
      var d, mid := ParseLeb16(s, at);
      var v, tail := ParseLeb16(s, mid);
      if tail == at {
        break;
      }
      at := tail;
      layer := InstallOne(layer, d, ToI64(v));
    }
  }

  /** The first ':' of an argument, which ends the case name. */
  function ColonAt(arg: string, i: nat): (r: Option<nat>)
    ensures r.Some? ==> i <= r.value < |arg| && arg[r.value] == ':'
    ensures r.Some? ==> forall j :: i <= j < r.value ==> arg[j] != ':'
    ensures r.None? ==> forall j :: i <= j < |arg| ==> arg[j] != ':'
    decreases |arg| - i
  {
    if i >= |arg| then None else if arg[i] == ':' then Some(i) else ColonAt(arg, i + 1)
  }

  /**
   * The explicit layer a `case:...` argument replays: None, the pointer left
   * NULL, when the argument has no colon or the loop installs nothing.
   */
  function IdentityDefines(arg: string): (r: Option<seq<Define>>)
    ensures ColonAt(arg, 0).None? ==> r.None?
    ensures r.Some? ==> |r.value| > 0
  {
    match ColonAt(arg, 0)
    case None => None
    case Some(c) => Replayed(DecodeFrom(arg, c + 1, []))
  }

  /** The layer a decoding loop leaves, or None when it installed nothing. */
  function Replayed(layer: seq<Define>): Option<seq<Define>>
  {
    if |layer| == 0 then None else Some(layer)
  }

  /**
   * After a colon at c, the argument replays no layer exactly when the
   * first slot and value read after the colon consume no text: otherwise the
   * loop installs a literal, and a layer once grown is never empty again.
   */
  lemma EmptyIdentity(arg: string, c: nat)
    requires ColonAt(arg, 0) == Some(c)
    ensures IdentityDefines(arg).None? <==> Parse(arg, Parse(arg, c + 1).tail).tail == c + 1
  {
    var a := Parse(arg, c + 1);
    var b := Parse(arg, a.tail);
    if b.tail != c + 1 {
      var next := InstallOne([], a.value, ToI64(b.value));
      assert DecodeFrom(arg, c + 1, []) == DecodeFrom(arg, b.tail, next);
    }
  }

  /** Installing the pairs one after another. */
  function Install(layer: seq<Define>, pairs: seq<Pair>): (r: seq<Define>)
    ensures |r| >= |layer|
    ensures |pairs| > 0 ==> |r| > 0
    decreases |pairs|
  {
    if |pairs| == 0 then layer
    else Install(InstallOne(layer, pairs[0].slot, ToI64(ToU64(pairs[0].value))), pairs[1..])
  }

  /** Parsing stops where neither a digit nor 'w' follows. */
  predicate Terminates(rest: string)
  {
    CharNibble(At(rest, 0)).None? && At(rest, 0) != 'w'
  }

  lemma StopsAtTerminator(s: string, q: nat)
    requires CharNibble(At(s, q)).None? && At(s, q) != 'w'
    ensures Parse(s, q).tail == q
  {
  }

  /**
   * The text of s from position pos is the encoding of the pairs, followed
   * by a character that stops the parser.
   */
  predicate EncodedAt(s: string, pos: nat, pairs: seq<Pair>)
    requires WellFormedPairs(pairs)
    decreases |pairs|
  {
    if |pairs| == 0 then pos <= |s| && Terminates(s[pos..])
    else
      var e := PairText(pairs[0]);
      && pos + |e| <= |s| && s[pos..pos + |e|] == e
      && EncodedAt(s, pos + |e|, pairs[1..])
  }

  /**
   * Round trip: decoding what `perm_printid` prints for a list of pairs
   * installs exactly those pairs, in order, whatever precedes the encoding
   * and as long as a terminator follows it.
   */
  lemma DecodeEncode(prefix: string, pairs: seq<Pair>, rest: string, layer: seq<Define>)
    requires WellFormedPairs(pairs) && Terminates(rest)
    ensures DecodeFrom(prefix + EncodePairs(pairs) + rest, |prefix|, layer) == Install(layer, pairs)
  {
    var s := prefix + EncodePairs(pairs) + rest;
    EncodedIn(s, prefix, pairs, rest);
    DecodeEncoded(s, |prefix|, pairs, layer);
  }

  /** Decoding from the start of an encoding installs its pairs in order. */
  lemma {:induction false} DecodeEncoded(s: string, pos: nat, pairs: seq<Pair>, layer: seq<Define>)
    requires WellFormedPairs(pairs) && EncodedAt(s, pos, pairs)
    ensures DecodeFrom(s, pos, layer) == Install(layer, pairs)
    decreases |pairs|
  {
    if |pairs| == 0 {
      assert At(s, pos) == At(s[pos..], 0);
      StopsAtTerminator(s, pos);
    } else {
      var p := pairs[0];
      var mid, tail := DecodeHead(s, pos, pairs);
      EncodedTail(s, pos, tail, pairs);
      DecodeStep(s, pos, mid, tail, layer, p.slot, ToU64(p.value));
      DecodeEncoded(s, tail, pairs[1..], InstallOne(layer, p.slot, ToI64(ToU64(p.value))));
    }
  }

  /** The first pair of an encoding parses back, and the rest of the encoding follows it. */
  lemma DecodeHead(s: string, pos: nat, pairs: seq<Pair>) returns (mid: nat, tail: nat)
    requires WellFormedPairs(pairs) && |pairs| > 0 && EncodedAt(s, pos, pairs)
    ensures tail == pos + |PairText(pairs[0])|
    ensures Parse(s, pos) == Parsed(pairs[0].slot, mid)
    ensures Parse(s, mid) == Parsed(ToU64(pairs[0].value), tail) && tail != pos
  {
    var p := pairs[0];
    var a, b := Print(p.slot), Print(ToU64(p.value));
    var e := PairText(p);
    SplitAt(s, pos, e, a, b);
    ParsePair(s, s[..pos], p.slot, ToU64(p.value), s[pos + |e|..]);
    mid, tail := pos + |a|, pos + |e|;
  }

  /** The rest of an encoding follows its first pair. */
  lemma EncodedTail(s: string, pos: nat, tail: nat, pairs: seq<Pair>)
    requires WellFormedPairs(pairs) && |pairs| > 0 && EncodedAt(s, pos, pairs) && tail == pos + |PairText(pairs[0])|
    ensures WellFormedPairs(pairs[1..]) && EncodedAt(s, tail, pairs[1..])
  {
  }

  /** A string holding a two-part piece at a position, split around it. */
  lemma SplitAt(s: string, pos: nat, e: string, a: string, b: string)
    requires e == a + b && pos + |e| <= |s| && s[pos..pos + |e|] == e
    ensures s == s[..pos] + a + (b + s[pos + |e|..]) && |s[..pos]| == pos && |e| == |a| + |b|
  {
    assert s == s[..pos] + s[pos..pos + |e|] + s[pos + |e|..];
  }

  /** An encoding embedded between a prefix and a terminated rest is an encoding at the prefix's end. */
  lemma {:induction false} EncodedIn(s: string, prefix: string, pairs: seq<Pair>, rest: string)
    requires WellFormedPairs(pairs) && Terminates(rest) && s == prefix + EncodePairs(pairs) + rest
    ensures EncodedAt(s, |prefix|, pairs)
    decreases |pairs|
  {
    if |pairs| == 0 {
      assert s[|prefix|..] == rest;
    } else {
      var e := PairText(pairs[0]);
      var t := EncodePairs(pairs[1..]);
      var next := prefix + e;
      Regroup(s, prefix, e, t, rest);
      EncodedIn(s, next, pairs[1..], rest);
      EncodedCons(s, |prefix|, pairs, e, |next|);
    }
  }

  lemma Regroup(s: string, prefix: string, e: string, t: string, rest: string)
    requires s == prefix + (e + t) + rest
    ensures s == (prefix + e) + t + rest
    ensures s[|prefix|..|prefix| + |e|] == e
  {
    assert s == prefix + e + (t + rest);
  }

  /** The first pair's text at pos, followed by an encoding of the rest. */
  lemma EncodedCons(s: string, pos: nat, pairs: seq<Pair>, e: string, next: nat)
    requires WellFormedPairs(pairs) && |pairs| > 0 && e == PairText(pairs[0])
    requires next == pos + |e| && next <= |s| && s[pos..next] == e
    requires EncodedAt(s, next, pairs[1..])
    ensures EncodedAt(s, pos, pairs)
  {
    assert EncodedAt(s, pos, pairs) <==>
      next <= |s| && s[pos..next] == e && EncodedAt(s, next, pairs[1..]);
  }

  /** One round of the decoding loop when the position moves. */
  lemma DecodeStep(s: string, pos: nat, mid: nat, tail: nat, layer: seq<Define>, slot: nat, value: nat)
    requires Parse(s, pos) == Parsed(slot, mid) && Parse(s, mid) == Parsed(value, tail) && tail != pos
    ensures DecodeFrom(s, pos, layer) == DecodeFrom(s, tail, InstallOne(layer, slot, ToI64(value)))
  {
  }

  /** Two printed numbers parse back one after the other. */
  lemma ParsePair(s: string, prefix: string, x: nat, y: nat, tail: string)
    requires IsU64(x) && IsU64(y) && s == prefix + Print(x) + (Print(y) + tail)
    ensures |Print(x)| >= 1
    ensures Parse(s, |prefix|) == Parsed(x, |prefix| + |Print(x)|)
    ensures Parse(s, |prefix| + |Print(x)|) == Parsed(y, |prefix| + |Print(x)| + |Print(y)|)
  {
    PrintParse(prefix, x, Print(y) + tail);
    Assoc(prefix, Print(x), Print(y), tail);
    PrintParse(prefix + Print(x), y, tail);
    PrintSign(x);
  }

  lemma Assoc(a: string, b: string, c: string, d: string)
    ensures a + b + (c + d) == (a + b) + c + d
  {
  }

    /**
   * Replaying an identity: for a case name without a colon, the argument
   * `perm_printid` prints for a nonempty list of pairs decodes to exactly the
   * layer that installs those pairs, and with no pairs to no layer at all.
   */
  lemma ReplayIdentity(name: string, pairs: seq<Pair>)
    requires forall j :: 0 <= j < |name| ==> name[j] != ':'
    requires WellFormedPairs(pairs)
    ensures |pairs| == 0 ==> IdentityDefines(name + ":" + EncodePairs(pairs)) == None
    ensures |pairs| > 0 ==> IdentityDefines(name + ":" + EncodePairs(pairs)) == Some(Install([], pairs))
  {
    var prefix, encoded := name + ":", EncodePairs(pairs);
    var arg, layer := prefix + encoded, Install([], pairs);
    NameColon(name, encoded);
    assert Terminates("");
    DecodeEncode(prefix, pairs, "", []);
    assert prefix + encoded + "" == arg;
    assert DecodeFrom(arg, |name| + 1, []) == layer;
    DecodedIdentity(arg, |name|);
    assert IdentityDefines(arg) == Replayed(layer);
  }

  /** An argument whose first colon is at c replays what the text after it decodes to, if anything. */
  lemma DecodedIdentity(arg: string, c: nat)
    requires ColonAt(arg, 0) == Some(c)
    ensures IdentityDefines(arg) == Replayed(DecodeFrom(arg, c + 1, []))
  {
  }

  /** A case name without a colon ends at the colon that follows it. */
  lemma NameColon(name: string, rest: string)
    requires forall j :: 0 <= j < |name| ==> name[j] != ':'
    ensures ColonAt(name + ":" + rest, 0) == Some(|name|)
  {
    var s := name + ":" + rest;
    assert s[|name|] == ':';
    match ColonAt(s, 0)
    case None =>
    case Some(v) =>
      if v < |name| {
        assert s[v] == name[v];
      }
  }

  /** No slot appears in two pairs. */
  predicate DistinctSlots(pairs: seq<Pair>)
  {
    forall i, j :: 0 <= i < j < |pairs| ==> pairs[i].slot != pairs[j].slot
  }

  /**
   * What the replayed layer holds: the literal of each pair's value (as
   * `intmax_t`) at its slot, and below the layer's length a null define at
   * every other slot the starting layer did not already set.
   */
  lemma {:induction false} InstallContents(layer: seq<Define>, pairs: seq<Pair>)
    requires DistinctSlots(pairs)
    ensures forall i :: 0 <= i < |pairs| ==>
      pairs[i].slot < |Install(layer, pairs)| && Install(layer, pairs)[pairs[i].slot] == LitDefine(ToI64(ToU64(pairs[i].value)))
    ensures |Install(layer, pairs)| >= |layer|
    ensures forall d :: 0 <= d < |Install(layer, pairs)| && (forall i :: 0 <= i < |pairs| ==> pairs[i].slot != d) ==>
      Install(layer, pairs)[d] == (if d < |layer| then layer[d] else NullDefine)
    decreases |pairs|
  {
    if |pairs| > 0 {
      var p := pairs[0];
      var next := InstallOne(layer, p.slot, ToI64(ToU64(p.value)));
      InstallContents(next, pairs[1..]);
      var result := Install(layer, pairs);
      assert result == Install(next, pairs[1..]);
      forall i | 0 <= i < |pairs|
        ensures pairs[i].slot < |result| && result[pairs[i].slot] == LitDefine(ToI64(ToU64(pairs[i].value)))
      {
        if i > 0 {
          assert pairs[1..][i - 1] == pairs[i];
        } else {
          assert forall k :: 0 <= k < |pairs[1..]| ==> pairs[1..][k].slot != p.slot by {
            forall k | 0 <= k < |pairs[1..]|
              ensures pairs[1..][k].slot != p.slot
            {
              assert pairs[1..][k] == pairs[k + 1];
            }
          }
        }
      }
      forall d | 0 <= d < |result| && (forall i :: 0 <= i < |pairs| ==> pairs[i].slot != d)
        ensures result[d] == (if d < |layer| then layer[d] else NullDefine)
      {
        assert forall k :: 0 <= k < |pairs[1..]| ==> pairs[1..][k].slot != d by {
          forall k | 0 <= k < |pairs[1..]|
            ensures pairs[1..][k].slot != d
          {
            assert pairs[1..][k] == pairs[k + 1];
          }
        }
        assert p.slot != d;
      }
    }
  }

  /** A slot index with no value after it installs that slot as the literal 0. */
  lemma DanglingSlot()
    ensures DecodeFrom("3", 0, []) == [NullDefine, NullDefine, NullDefine, LitDefine(0)]
  {
    var s := "3";
    assert At(s, 0) == '3' && At(s, 1) == '\0';
    assert Parse(s, 0) == Parsed(3, 1);
    assert Parse(s, 1) == Parsed(0, 1);
    assert NextPow2(4) == 4;
    var layer := InstallOne([], 3, 0);
    assert layer == [NullDefine, NullDefine, NullDefine, LitDefine(0)];
    assert Parse(s, 1).tail == 1;
  }
}

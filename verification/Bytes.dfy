/** Byte-sequence matching as the ring buffer of libnetdata performs it. One `char` stands for one byte. */
module Bytes {

  const CR: char := '\r'
  const LF: char := '\n'
  const NUL: char := '\0'
  const CRLF: string := [CR, LF]

  function Min(a: nat, b: nat): (r: nat)
    ensures r <= a && r <= b && (r == a || r == b)
  {
    if a < b then a else b
  }

  /** `rbuf_memcmp` reports equality as soon as either side runs out of bytes. */
  predicate Agrees(hay: string, needle: string) {
    forall i | 0 <= i < |hay| && i < |needle| :: hay[i] == needle[i]
  }

  /** The index `rbuf_find_bytes` leaves behind; `|hay|` means that nothing was found. */
  function Find(hay: string, needle: string): (r: nat)
    ensures r <= |hay|
  {
    if hay == [] || Agrees(hay, needle) then 0 else Find(hay[1..], needle) + 1
  }

  /** The needle occurs in full at `i`, as `memmem` would find it. */
  predicate OccursAt(hay: string, needle: string, i: int) {
    0 <= i && i + |needle| <= |hay| && hay[i..i + |needle|] == needle
  }

  ghost predicate Contains(hay: string, needle: string) {
    exists i :: OccursAt(hay, needle, i)
  }

  /** The search stopped at a whole occurrence. */
  predicate Hit(hay: string, needle: string) {
    Find(hay, needle) + |needle| <= |hay|
  }

  /** The search was satisfied by the beginning of a needle that the buffer cuts short. */
  predicate Torn(hay: string, needle: string) {
    Find(hay, needle) < |hay| < Find(hay, needle) + |needle|
  }

  /** `rbuf_bump_tail`: refuses to skip more than there is. */
  function Skip(s: string, n: nat): (r: string)
    ensures n <= |s| ==> r == s[n..]
    ensures n > |s| ==> r == s
  {
    if n <= |s| then s[n..] else s
  }

  function Concat(pieces: seq<string>): string {
    if pieces == [] then [] else pieces[0] + Concat(pieces[1..])
  }

  /** A C string ends at its first NUL. */
  function CString(s: string): (r: string)
    ensures r <= s && NUL !in r
    ensures |r| < |s| ==> s[|r|] == NUL
  {
    if s == [] || s[0] == NUL then [] else [s[0]] + CString(s[1..])
  }

  /** `Find` is the least offset from which the data agree with the needle. */
  lemma {:induction false} FindSpec(hay: string, needle: string)
    ensures var r := Find(hay, needle);
      && (r < |hay| ==> Agrees(hay[r..], needle))
      && (forall i | 0 <= i < r :: !Agrees(hay[i..], needle))
  {
    if hay != [] && !Agrees(hay, needle) {
      FindSpec(hay[1..], needle);
      assert hay[0..] == hay;
      assert forall i | 0 < i <= |hay| :: hay[i..] == hay[1..][i - 1..];
    } else {
      assert hay[0..] == hay;
    }
  }

  lemma FindIs(hay: string, needle: string, k: nat)
    requires k <= |hay|
    requires forall i | 0 <= i < k :: !Agrees(hay[i..], needle)
    requires k < |hay| ==> Agrees(hay[k..], needle)
    ensures Find(hay, needle) == k
  {
    FindSpec(hay, needle);
  }

  lemma HitIsOccurrence(hay: string, needle: string)
    requires needle != [] && Hit(hay, needle)
    ensures OccursAt(hay, needle, Find(hay, needle))
  {
    var r := Find(hay, needle);
    FindSpec(hay, needle);
    assert forall i | 0 <= i < |needle| :: hay[r..][i] == hay[r + i];
    assert hay[r..r + |needle|] == needle;
  }

  /** A whole occurrence before the last byte is always found, at the latest there. */
  lemma OccurrenceIsHit(hay: string, needle: string, i: nat)
    requires needle != [] && OccursAt(hay, needle, i)
    ensures Find(hay, needle) <= i
  {
    FindSpec(hay, needle);
    var w := hay[i..i + |needle|];
    assert forall k | 0 <= k < |needle| :: hay[i..][k] == w[k];
    assert Agrees(hay[i..], needle);
  }

  /** An offset where the data disagree with the needle stays one when data are appended. */
  lemma DisagreesExtends(hay: string, needle: string, more: string, i: nat)
    requires i <= |hay| && !Agrees(hay[i..], needle)
    ensures !Agrees((hay + more)[i..], needle)
  {
    var k :| 0 <= k < |hay[i..]| && k < |needle| && hay[i..][k] != needle[k];
    assert (hay + more)[i..][k] == hay[i..][k];
  }

  /** Appending bytes never moves the search result of a whole hit. */
  lemma HitExtends(hay: string, needle: string, more: string)
    requires needle != [] && Hit(hay, needle)
    ensures Find(hay + more, needle) == Find(hay, needle) && Hit(hay + more, needle)
  {
    var r := Find(hay, needle);
    HitIsOccurrence(hay, needle);
    FindSpec(hay, needle);
    forall i | 0 <= i < r ensures !Agrees((hay + more)[i..], needle) {
      DisagreesExtends(hay, needle, more, i);
    }
    assert (hay + more)[r..] == hay[r..] + more;
    assert forall i | 0 <= i < |needle| :: (hay + more)[r..][i] == hay[r..][i];
    FindIs(hay + more, needle, r);
  }

  /** A search that found no whole occurrence can only be answered later in the longer data. */
  lemma MissExtends(hay: string, needle: string, more: string)
    ensures Find(hay, needle) <= Find(hay + more, needle)
  {
    var r := Find(hay, needle);
    FindSpec(hay, needle);
    FindSpec(hay + more, needle);
    forall i | 0 <= i < r ensures !Agrees((hay + more)[i..], needle) {
      DisagreesExtends(hay, needle, more, i);
    }
  }

  /** Dropping bytes before the result shifts it. */
  lemma FindDrop(hay: string, needle: string, k: nat)
    requires k <= Find(hay, needle)
    ensures Find(hay[k..], needle) == Find(hay, needle) - k
  {
    FindSpec(hay, needle);
    assert forall i | k <= i <= |hay| :: hay[k..][i - k..] == hay[i..];
    forall i | 0 <= i < Find(hay, needle) - k ensures !Agrees(hay[k..][i..], needle) {
      assert hay[k..][i..] == hay[k + i..];
    }
    FindIs(hay[k..], needle, Find(hay, needle) - k);
  }

  /** A search that no occurrence can answer: nothing found, and nothing torn either. */
  lemma FindNothing(hay: string, needle: string, last: char)
    requires needle != [] && Find(hay, needle) + |needle| > |hay|
    requires last !in needle
    ensures Find(hay + [last], needle) == |hay| + 1
  {
    MissExtends(hay, needle, [last]);
    FindSpec(hay + [last], needle);
    var s := hay + [last];
    forall i | Find(hay, needle) <= i < |s| ensures !Agrees(s[i..], needle) {
      assert s[i..][|hay| - i] == last;
    }
    FindIs(s, needle, |s|);
  }

  /** What a torn line terminator looks like: a carriage return at the very end and no CRLF before it. */
  lemma TornIsTrailingCr(s: string)
    ensures Torn(s, CRLF) <==> s != [] && s[|s| - 1] == CR && !Contains(s, CRLF)
  {
    var r := Find(s, CRLF);
    FindSpec(s, CRLF);
    if Torn(s, CRLF) {
      assert s[r..][0] == s[|s| - 1];
      if i :| OccursAt(s, CRLF, i) {
        OccurrenceIsHit(s, CRLF, i);
      }
    }
    if s != [] && s[|s| - 1] == CR && !Contains(s, CRLF) {
      assert Agrees(s[|s| - 1..], CRLF);
      if Hit(s, CRLF) {
        HitIsOccurrence(s, CRLF);
      }
    }
  }
}

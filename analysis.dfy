/** Brute-force key recovery: try all 26 keys, score each candidate, rank them. */
module Analysis {
  import opened Shift
  import opened Cipher

  /** One tried key, the text it decrypts to, and that text's score. */
  datatype Candidate = Candidate(key: int, text: string, score: real)

  /** The 26 candidates in enumeration order: key k gives the ciphertext shifted
      by -k. The keys are 0 to 25, in ascending order. */
  function Candidates(ciphertext: string, score: string -> real): (r: seq<Candidate>)
    ensures |r| == 26 && KeysAscending(r)
    ensures forall k :: 0 <= k < 26 ==> r[k].key == k
  {
    seq(26, k requires 0 <= k < 26 =>
      Candidate(k, Shifted(ciphertext, -k), score(Shifted(ciphertext, -k))))
  }

  /** `a` comes before `b` in the ranking: a higher score, or an equal score
      and a lower key. */
  predicate RanksBefore(a: Candidate, b: Candidate) {
    a.score > b.score || (a.score == b.score && a.key < b.key)
  }

  /** Every candidate ranks before every later one. */
  predicate Ranked(s: seq<Candidate>) {
    forall i, j :: 0 <= i < j < |s| ==> RanksBefore(s[i], s[j])
  }

  /** Scores never increase along the sequence. */
  predicate ScoresNonIncreasing(s: seq<Candidate>) {
    forall i, j :: 0 <= i < j < |s| ==> s[i].score >= s[j].score
  }

  /** Keys strictly increase along the sequence, as in the enumeration. */
  predicate KeysAscending(s: seq<Candidate>) {
    forall i, j :: 0 <= i < j < |s| ==> s[i].key < s[j].key
  }

  /** `results.sort(key=score, reverse=True)`: a stable sort by descending score,
      done as an insertion sort. When the keys of the input ascend (as the
      enumeration's do), stability makes ties come out in ascending key order. */
  method SortByScoreDescending(xs: seq<Candidate>) returns (r: seq<Candidate>)
    ensures multiset(r) == multiset(xs)
    ensures ScoresNonIncreasing(r)
    ensures KeysAscending(xs) ==> Ranked(r)
  {
    r := [];
    for i := 0 to |xs|
      invariant multiset(r) == multiset(xs[..i])
      invariant ScoresNonIncreasing(r)
      invariant KeysAscending(xs) ==> Ranked(r)
      invariant KeysAscending(xs) && i < |xs| ==> forall k :: 0 <= k < |r| ==> r[k].key < xs[i].key
    {
      ghost var before := r;
      r := InsertByScore(r, xs[i]);
      assert xs[..i + 1] == xs[..i] + [xs[i]];
      if KeysAscending(xs) && i + 1 < |xs| {
        forall k | 0 <= k < |r|
          ensures r[k].key < xs[i + 1].key
        {
          assert r[k] in multiset(before) + multiset{xs[i]};
        }
      }
    }
    assert xs[..|xs|] == xs;
  }

  /** One step of the stable sort: `x` goes after every candidate of `r` whose
      score is at least its own and before the first one whose score is lower. */
  method InsertByScore(r: seq<Candidate>, x: Candidate) returns (s: seq<Candidate>)
    ensures multiset(s) == multiset(r) + multiset{x}
    ensures ScoresNonIncreasing(r) ==> ScoresNonIncreasing(s)
    ensures Ranked(r) && (forall k :: 0 <= k < |r| ==> r[k].key < x.key) ==> Ranked(s)
  {
    var p := 0;
    while p < |r| && r[p].score >= x.score
      invariant 0 <= p <= |r|
      invariant forall k :: 0 <= k < p ==> r[k].score >= x.score
    {
      p := p + 1;
    }
    InsertAt(r, p, x);
    if ScoresNonIncreasing(r) {
      InsertNonIncreasing(r, p, x);
    }
    if Ranked(r) && (forall k :: 0 <= k < |r| ==> r[k].key < x.key) {
      InsertRanked(r, p, x);
    }
    s := r[..p] + [x] + r[p..];
  }

  /** `analyze` without its printing: every key from 0 to 25 is tried in turn,
      each candidate scored and appended, and the list sorted by descending
      score; the best guess is its head. */
  method Analyze(ciphertext: string, score: string -> real)
    returns (results: seq<Candidate>, best: Candidate)
    ensures |results| == 26
    ensures multiset(results) == multiset(Candidates(ciphertext, score))
    ensures forall c :: c in results ==>
      0 <= c.key < 26 && c.text == Shifted(ciphertext, -c.key) && c.score == score(c.text)
    ensures forall k :: 0 <= k < 26 ==> Candidates(ciphertext, score)[k] in results
    ensures forall i, j :: 0 <= i < j < |results| ==> results[i].key != results[j].key
    ensures Ranked(results)
    ensures best == results[0]
    ensures forall c :: c in results ==>
      c.score <= best.score && (c.score == best.score ==> best.key <= c.key)
  {
    ghost var all := Candidates(ciphertext, score);
    results := [];
    for key := 0 to 26
      invariant results == all[..key]
    {
      var candidate := CaesarShift(ciphertext, -key);
      var s := score(candidate);
      results := results + [Candidate(key, candidate, s)];
    }
    assert results == all;
    results := SortByScoreDescending(results);
    RankedEnumeration(ciphertext, score, results);
    best := results[0];
  }

  /** What a ranked permutation of the enumeration looks like: 26 entries, each
      the candidate of its own key, every key present exactly once. */
  lemma RankedEnumeration(ciphertext: string, score: string -> real, results: seq<Candidate>)
    requires multiset(results) == multiset(Candidates(ciphertext, score))
    requires Ranked(results)
    ensures |results| == 26
    ensures forall c :: c in results ==> 0 <= c.key < 26 && c == Candidates(ciphertext, score)[c.key]
    ensures forall k :: 0 <= k < 26 ==> Candidates(ciphertext, score)[k] in results
    ensures forall i, j :: 0 <= i < j < |results| ==> results[i].key != results[j].key
  {
    var all := Candidates(ciphertext, score);
    assert |results| == |multiset(results)| == 26;
    forall c | c in results
      ensures 0 <= c.key < 26 && c == all[c.key]
    {
      assert c in multiset(results);
      CandidateByKey(ciphertext, score, c);
    }
    forall k | 0 <= k < 26
      ensures all[k] in results
    {
      assert all[k] in multiset(results);
    }
  }

  /** Each candidate, encrypted again with its own key, gives the ciphertext back. */
  lemma CandidatesReencrypt(ciphertext: string, score: string -> real)
    ensures forall c :: c in Candidates(ciphertext, score) ==> Shifted(c.text, c.key) == ciphertext
  {
    var all := Candidates(ciphertext, score);
    forall c | c in all
      ensures Shifted(c.text, c.key) == ciphertext
    {
      var k :| 0 <= k < 26 && all[k] == c;
      ShiftInverse(ciphertext, -k);
    }
  }

  /** The positions of `r[..p] + [x] + r[p..]`: `x` sits at `p`, the rest move up by one. */
  lemma InsertAt(r: seq<Candidate>, p: int, x: Candidate)
    requires 0 <= p <= |r|
    ensures |r[..p] + [x] + r[p..]| == |r| + 1
    ensures forall k :: 0 <= k < p ==> (r[..p] + [x] + r[p..])[k] == r[k]
    ensures (r[..p] + [x] + r[p..])[p] == x
    ensures forall k :: p < k <= |r| ==> (r[..p] + [x] + r[p..])[k] == r[k - 1]
    ensures multiset(r[..p] + [x] + r[p..]) == multiset(r) + multiset{x}
  {
    assert r == r[..p] + r[p..];
  }

  /** Inserting `x` after the candidates scoring at least as much and before
      those scoring less keeps the scores non-increasing. */
  lemma InsertNonIncreasing(r: seq<Candidate>, p: int, x: Candidate)
    requires 0 <= p <= |r|
    requires ScoresNonIncreasing(r)
    requires forall k :: 0 <= k < p ==> r[k].score >= x.score
    requires p < |r| ==> r[p].score < x.score
    ensures ScoresNonIncreasing(r[..p] + [x] + r[p..])
  {
    var s := r[..p] + [x] + r[p..];
    InsertAt(r, p, x);
    forall i, j | 0 <= i < j < |s|
      ensures s[i].score >= s[j].score
    {
      if j > p {
        assert r[p].score >= r[j - 1].score;
      }
    }
  }

  /** The same insertion keeps the ranking when `x` has a larger key than every
      candidate already placed. */
  lemma InsertRanked(r: seq<Candidate>, p: int, x: Candidate)
    requires 0 <= p <= |r|
    requires Ranked(r)
    requires forall k :: 0 <= k < |r| ==> r[k].key < x.key
    requires forall k :: 0 <= k < p ==> r[k].score >= x.score
    requires p < |r| ==> r[p].score < x.score
    ensures Ranked(r[..p] + [x] + r[p..])
  {
    var s := r[..p] + [x] + r[p..];
    InsertAt(r, p, x);
    forall i, j | 0 <= i < j < |s|
      ensures RanksBefore(s[i], s[j])
    {
      if j > p {
        assert RanksBefore(r[p], r[j - 1]) || p == j - 1;
      }
    }
  }

  /** A member of the enumeration is the one listed under its own key. */
  lemma CandidateByKey(ciphertext: string, score: string -> real, c: Candidate)
    requires c in multiset(Candidates(ciphertext, score))
    ensures 0 <= c.key < 26 && c == Candidates(ciphertext, score)[c.key]
  {
    var all := Candidates(ciphertext, score);
    var m :| 0 <= m < 26 && all[m] == c;
  }

  /** Two rankings of the same candidates start with the same candidate. */
  lemma RankedHead(a: seq<Candidate>, b: seq<Candidate>)
    requires multiset(a) == multiset(b)
    requires Ranked(a) && Ranked(b)
    requires a != []
    ensures b != [] && a[0] == b[0]
  {
    assert a[0] in multiset(b);
    var j :| 0 <= j < |b| && b[j] == a[0];
    assert b[0] in multiset(a);
    var m :| 0 <= m < |a| && a[m] == b[0];
    // b[j] can only be b's head: otherwise b[0] would rank before a[0] and a[0]
    // before b[0], which RanksBefore does not allow
    assert j == 0;
  }

  /** Removing the head of a non-empty list removes one copy of it from its multiset. */
  lemma DropHead(a: seq<Candidate>)
    requires a != []
    ensures multiset(a[1..]) == multiset(a) - multiset{a[0]}
    ensures Ranked(a) ==> Ranked(a[1..])
  {
    assert a == [a[0]] + a[1..];
  }

  /** Only one sequence holds a given collection of candidates in ranked order,
      so the ranking does not depend on the sorting algorithm used. */
  lemma {:induction false} RankingUnique(a: seq<Candidate>, b: seq<Candidate>)
    requires multiset(a) == multiset(b)
    requires Ranked(a) && Ranked(b)
    ensures a == b
  {
    if a == [] {
      assert |b| == |multiset(b)| == 0;
    } else {
      RankedHead(a, b);
      DropHead(a);
      DropHead(b);
      RankingUnique(a[1..], b[1..]);
    }
  }

  /** Whatever the scoring, when the ciphertext came from encrypting `plaintext`
      with `key`, the candidate for that key is the plaintext itself. */
  lemma CandidatesContainPlaintext(plaintext: string, key: int, score: string -> real)
    requires 1 <= key <= 25
    ensures Encrypt(plaintext, key).Ok?
    ensures Candidates(Encrypt(plaintext, key).value, score)[key].text == plaintext
  {
    ShiftInverse(plaintext, key);
  }
}

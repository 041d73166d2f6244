/**
 * Header normalisation and the resolution of each required column name to a
 * column of the sheet (app.py lines 32-50).
 */
module Headers {
  import opened Common
  import opened Strings

  const CyrillicIo: char := '\U{0451}'     // ё
  const CyrillicIe: char := '\U{0435}'     // е
  const LatinC: char := 'c'
  const CyrillicEs: char := '\U{0441}'     // с

  /** The nine names the dashboard reads, in the order the mapping loop visits them. */
  const RequiredColumns: seq<string> := [
    "судно", "дата принятия на пирс", "дата отгрузки авто",
    "перевозчик", "номер авто", "тн", "клиент", "№ сертиф.", "брутто"
  ]

  /**
   * `str.lower()` on one character, for the scripts a header of this sheet is
   * written in: Latin A-Z, Cyrillic А-Я and the Cyrillic capitals Ѐ-Џ (Ё among them).
   */
  function LowerChar(c: char): char {
    if 'A' <= c <= 'Z' then (c as int + 32) as char
    else if '\U{0410}' <= c <= '\U{042F}' then (c as int + 32) as char
    else if '\U{0400}' <= c <= '\U{040F}' then (c as int + 80) as char
    else c
  }

  function Lower(s: string): string {
    seq(|s|, i requires 0 <= i < |s| => LowerChar(s[i]))
  }

  /** `str.replace(a, b)` for single characters `a` and `b`. */
  function ReplaceChar(s: string, a: char, b: char): string {
    seq(|s|, i requires 0 <= i < |s| => if s[i] == a then b else s[i])
  }

  /** Line 33's three passes: lower-case, then 'ё' to 'е', then Latin 'c' to Cyrillic 'с'. */
  function Folded(h: string): string {
    ReplaceChar(ReplaceChar(Lower(h), CyrillicIo, CyrillicIe), LatinC, CyrillicEs)
  }

  /** What the three passes do to one character. */
  function FoldChar(c: char): char {
    var l := LowerChar(c);
    var l' := if l == CyrillicIo then CyrillicIe else l;
    if l' == LatinC then CyrillicEs else l'
  }

  lemma FoldedAt(h: string, i: nat)
    requires i < |h|
    ensures |Folded(h)| == |h| && Folded(h)[i] == FoldChar(h[i])
  {
  }

  lemma FoldCharFacts(c: char)
    ensures FoldChar(c) != CyrillicIo && FoldChar(c) != LatinC
    ensures LowerChar(FoldChar(c)) == FoldChar(c)
    ensures FoldChar(FoldChar(c)) == FoldChar(c)
  {
  }

  /** Every character left after folding and stripping is one the three passes leave alone. */
  lemma FoldedStripFixed(h: string)
    ensures forall i :: 0 <= i < |Strip(Folded(h))| ==> FoldChar(Strip(Folded(h))[i]) == Strip(Folded(h))[i]
  {
    var folded := Folded(h);
    var r := Strip(folded);
    var lead := StripStart(folded);
    forall i | 0 <= i < |r| ensures FoldChar(r[i]) == r[i] {
      assert r[i] == folded[lead + i];
      FoldedAt(h, lead + i);
      FoldCharFacts(h[lead + i]);
    }
  }

  /**
   * `normalize_column_names` on one header: the three passes, then strip. The
   * result is lower-case, holds neither 'ё' nor Latin 'c', and has no
   * whitespace at either end.
   */
  function NormalizeName(h: string): (r: string)
    ensures CyrillicIo !in r && LatinC !in r
    ensures forall i :: 0 <= i < |r| ==> LowerChar(r[i]) == r[i]
    ensures Trimmed(r)
  {
    FoldedStripFixed(h);
    forall i | 0 <= i < |Strip(Folded(h))|
      ensures Strip(Folded(h))[i] != CyrillicIo && Strip(Folded(h))[i] != LatinC
      ensures LowerChar(Strip(Folded(h))[i]) == Strip(Folded(h))[i]
    {
      FoldCharFacts(Strip(Folded(h))[i]);
    }
    Strip(Folded(h))
  }

  /** `df.columns` after `normalize_column_names`. */
  function NormalizeAll(headers: seq<string>): (r: seq<string>)
    ensures |r| == |headers|
    ensures forall i :: 0 <= i < |r| ==> r[i] == NormalizeName(headers[i])
  {
    seq(|headers|, i requires 0 <= i < |headers| => NormalizeName(headers[i]))
  }

  /** Normalising a header twice gives the same name as normalising it once. */
  lemma NormalizeNameIdempotent(h: string)
    ensures NormalizeName(NormalizeName(h)) == NormalizeName(h)
  {
    var r := NormalizeName(h);
    FoldedStripFixed(h);
    forall i | 0 <= i < |r| ensures Folded(r)[i] == r[i] {
      FoldedAt(r, i);
    }
    assert Folded(r) == r;
    StrippedFixed(r);
  }

  /** The test on line 45: `req_col == avail_col or req_col in avail_col`. */
  predicate Matches(req: string, col: string) {
    req == col || Contains(col, req)
  }

  /** No column left of position `k` matches `req`. */
  predicate NoneBefore(req: string, cols: seq<string>, k: nat)
    requires k <= |cols|
  {
    forall j :: 0 <= j < k ==> !Matches(req, cols[j])
  }

  /** A column that does not match extends the run of non-matching columns by one. */
  lemma NoneBeforeStep(req: string, cols: seq<string>, k: nat)
    requires k < |cols| && NoneBefore(req, cols, k) && !Matches(req, cols[k])
    ensures NoneBefore(req, cols, k + 1)
  {
  }

  /**
   * Index of the first column that `req` matches, or `|cols|` when there is none:
   * the inner loop of lines 44-48, which stops at the first hit.
   */
  function FirstMatch(req: string, cols: seq<string>): (k: nat)
    ensures k <= |cols|
    ensures k < |cols| ==> Matches(req, cols[k])
    ensures forall j :: 0 <= j < k ==> !Matches(req, cols[j])
  {
    if cols == [] then 0
    else if Matches(req, cols[0]) then 0
    else 1 + FirstMatch(req, cols[1..])
  }

  /**
   * The column a required name is mapped to: the first column (in header
   * order) that equals or contains it, and the name itself when none does.
   */
  function Resolve(req: string, cols: seq<string>): (c: string)
    ensures forall k :: 0 <= k < |cols| && Matches(req, cols[k]) && NoneBefore(req, cols, k) ==> c == cols[k]
    ensures (forall k :: 0 <= k < |cols| ==> !Matches(req, cols[k])) ==> c == req
    ensures c !in cols ==> c == req
    ensures c in cols ==> Matches(req, c)
  {
    var k := FirstMatch(req, cols);
    if k < |cols| then cols[k] else req
  }

  /**
   * A column that merely contains the name wins over an exact match further
   * right: the loop breaks at the first hit and never looks for equality first.
   */
  lemma ContainingColumnBeatsLaterExactMatch(req: string, cols: seq<string>, i: nat, j: nat)
    requires i < j < |cols|
    requires Contains(cols[i], req) && cols[j] == req
    ensures FirstMatch(req, cols) <= i
    ensures Resolve(req, cols) == cols[FirstMatch(req, cols)]
  {
  }

  /** The same on the sheet's own names: "брутто тн" precedes "тн". */
  lemma ContainingColumnExample()
    ensures Resolve("тн", ["брутто тн", "тн"]) == "брутто тн"
  {
    assert ContainsAt("брутто тн", "тн", 7);
  }

  /** Python's dict with insertion order, as the list of its items. */
  type Dict = seq<(string, string)>

  function Keys(d: Dict): seq<string> {
    seq(|d|, i requires 0 <= i < |d| => d[i].0)
  }

  /**
   * `d[k] = v`: an existing key keeps its place and takes the new value; a new
   * key goes to the end.
   */
  function Put(d: Dict, k: string, v: string): (r: Dict)
    ensures NoDup(Keys(d)) ==> NoDup(Keys(r))
    ensures k in Keys(r)
    ensures NoDup(Keys(d)) ==> forall i :: 0 <= i < |r| && r[i].0 == k ==> r[i].1 == v
    ensures forall i :: 0 <= i < |r| && r[i].0 != k ==> i < |d| && r[i] == d[i]
    ensures forall m :: m in Keys(r) <==> m in Keys(d) || m == k
  {
    var i := IndexOf(Keys(d), k);
    if i < |d| then
      var r := d[i := (k, v)];
      assert Keys(r) == Keys(d);
      assert NoDup(Keys(d)) ==> forall j :: 0 <= j < |r| && r[j].0 == k ==> j == i by {
        forall j | 0 <= j < |r| && r[j].0 == k && NoDup(Keys(d)) ensures j == i {
          assert Keys(d)[j] == k == Keys(d)[i];
        }
      }
      r
    else
      var r := d + [(k, v)];
      assert Keys(r) == Keys(d) + [k];
      assert forall j :: 0 <= j < |d| ==> r[j].0 == Keys(d)[j] != k;
      r
  }

  /**
   * `column_mapping` after the loop of lines 42-50 over `required`: one entry
   * per distinct required name, each holding that name's resolved column.
   */
  function ResolveAll(required: seq<string>, cols: seq<string>): (d: Dict)
    ensures NoDup(Keys(d))
    ensures forall i :: 0 <= i < |d| ==> d[i].0 in required && d[i].1 == Resolve(d[i].0, cols)
    ensures forall q :: q in required <==> q in Keys(d)
    decreases |required|
  {
    if required == [] then []
    else
      var req := required[|required| - 1];
      var prefix := required[..|required| - 1];
      assert required == prefix + [req];
      Put(ResolveAll(prefix, cols), req, Resolve(req, cols))
  }

  /** One more pass of the outer loop puts the next required name's column into the mapping. */
  lemma ResolveAllStep(required: seq<string>, cols: seq<string>, i: nat)
    requires i < |required|
    ensures ResolveAll(required[..i + 1], cols) == Put(ResolveAll(required[..i], cols), required[i], Resolve(required[i], cols))
  {
    assert required[..i + 1][..i] == required[..i];
  }
}

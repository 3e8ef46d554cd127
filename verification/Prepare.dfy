/** Idempotent preparation: the answer to a request is remembered under a hash of the request. */
module Prepare {
  import opened Wrappers
  import opened Selection
  import opened Http
  import opened Api
  import opened Transactions
  import Addresses

  newtype byte = x: int | 0 <= x < 256

  /** `blockHeight` is an i32, the amounts are i64; `destination` is its UTF-8 bytes. */
  datatype Request = Request(blockHeight: int, amount: int, fee: int, destination: seq<byte>)
  {
    predicate InRange() {
      && -Power(4) <= 2 * blockHeight < Power(4)
      && -Power(8) <= 2 * amount < Power(8)
      && -Power(8) <= 2 * fee < Power(8)
    }
  }

  /** 256 to the `n`. */
  function Power(n: nat): (p: int)
    ensures p > 0
  {
    if n == 0 then 1 else 256 * Power(n - 1)
  }

  /** The `n` low bytes of `x` in two's complement, least significant first. */
  function LittleEndian(x: int, n: nat): (bytes: seq<byte>)
    ensures |bytes| == n
    decreases n
  {
    if n == 0 then [] else [(x % 256) as byte] + LittleEndian(x / 256, n - 1)
  }

  function Preimage(r: Request): seq<byte> {
    LittleEndian(r.blockHeight, 4) + LittleEndian(r.amount, 8) + LittleEndian(r.fee, 8) + r.destination
  }

  /** Equal bytes mean equal numbers, up to a multiple of 256 to the `n`. */
  lemma {:induction false} LittleEndianDecides(x: int, y: int, n: nat) returns (k: int)
    requires LittleEndian(x, n) == LittleEndian(y, n)
    ensures x - y == k * Power(n)
    decreases n
  {
    if n == 0 {
      k := x - y;
    } else {
      assert LittleEndian(x, n)[0] == LittleEndian(y, n)[0];
      assert LittleEndian(x, n)[1..] == LittleEndian(x / 256, n - 1);
      assert LittleEndian(y, n)[1..] == LittleEndian(y / 256, n - 1);
      k := LittleEndianDecides(x / 256, y / 256, n - 1);
      assert x - y == 256 * (x / 256 - y / 256);
      assert 256 * (k * Power(n - 1)) == k * (256 * Power(n - 1));
    }
  }

  /** The number that bytes stand for, least significant first. */
  function Value(bytes: seq<byte>): int {
    if bytes == [] then 0 else bytes[0] as int + 256 * Value(bytes[1..])
  }

  lemma {:induction false} LittleEndianValue(x: int, n: nat)
    ensures Value(LittleEndian(x, n)) == x % Power(n)
    decreases n
  {
    if n == 0 {
      assert x % 1 == 0;
    } else {
      var rest := LittleEndian(x / 256, n - 1);
      assert LittleEndian(x, n)[1..] == rest;
      LittleEndianValue(x / 256, n - 1);
      ModByDigits(x, Power(n - 1));
    }
  }

  lemma ModByDigits(x: int, p: int)
    requires p > 0
    ensures x % (256 * p) == x % 256 + 256 * ((x / 256) % p)
  {
    var q, r := (x / 256) / p, x % 256 + 256 * ((x / 256) % p);
    assert x / 256 == q * p + (x / 256) % p;
    assert x == 256 * (x / 256) + x % 256;
    assert 256 * (q * p) == q * (256 * p);
    assert x == q * (256 * p) + r;
    RemainderIs(x, 256 * p, q, r);
  }

  lemma RemainderIs(x: int, d: int, q: int, r: int)
    requires d > 0 && x == q * d + r && 0 <= r < d
    ensures x % d == r
  {
    var k := q - x / d;
    assert x == (x / d) * d + x % d;
    assert k * d == x % d - r;
    MultipleBound(k, d);
  }

  /** The preimage field by field: four bytes, twice eight, and the destination. */
  lemma PreimageFields(r: Request)
    ensures
      var bytes := Preimage(r);
      && |bytes| == 20 + |r.destination|
      && Value(bytes[..4]) == r.blockHeight % Power(4)
      && Value(bytes[4..12]) == r.amount % Power(8)
      && Value(bytes[12..20]) == r.fee % Power(8)
      && bytes[20..] == r.destination
  {
    hide LittleEndian, Power, Value;
    var bytes := Preimage(r);
    assert bytes[..4] == LittleEndian(r.blockHeight, 4);
    assert bytes[4..12] == LittleEndian(r.amount, 8);
    assert bytes[12..20] == LittleEndian(r.fee, 8);
    LittleEndianValue(r.blockHeight, 4);
    LittleEndianValue(r.amount, 8);
    LittleEndianValue(r.fee, 8);
  }

  lemma LittleEndianInjective(x: int, y: int, n: nat)
    requires -Power(n) <= 2 * x < Power(n) && -Power(n) <= 2 * y < Power(n)
    requires LittleEndian(x, n) == LittleEndian(y, n)
    ensures x == y
  {
    var k := LittleEndianDecides(x, y, n);
    SmallMultiple(k, Power(n), x - y);
  }

  lemma SmallMultiple(k: int, p: int, d: int)
    requires p > 0 && d == k * p && -p < d < p
    ensures d == 0
  {
    MultipleBound(k, p);
  }

  lemma MultipleBound(k: int, p: int)
    requires p > 0
    ensures k >= 1 ==> k * p >= p
    ensures k <= -1 ==> k * p <= -p
  {
    if k >= 1 {
      assert (k - 1) * p >= 0;
    } else if k <= -1 {
      assert (-k - 1) * p >= 0;
    }
  }

  /** Different requests have different preimages. */
  lemma PreimageIsInjective(r: Request, s: Request)
    requires r.InRange() && s.InRange() && Preimage(r) == Preimage(s)
    ensures r == s
  {
    hide LittleEndian, Power;
    var a, b := Preimage(r), Preimage(s);
    assert a[..4] == LittleEndian(r.blockHeight, 4) && b[..4] == LittleEndian(s.blockHeight, 4);
    assert a[4..12] == LittleEndian(r.amount, 8) && b[4..12] == LittleEndian(s.amount, 8);
    assert a[12..20] == LittleEndian(r.fee, 8) && b[12..20] == LittleEndian(s.fee, 8);
    assert a[20..] == r.destination && b[20..] == s.destination;
    LittleEndianInjective(r.blockHeight, s.blockHeight, 4);
    LittleEndianInjective(r.amount, s.amount, 8);
    LittleEndianInjective(r.fee, s.fee, 8);
  }

  /** What the handler finds around it when a request arrives: storage, the watch set, the libraries. */
  datatype Surroundings = Surroundings(
    view: View,
    watched: seq<string>,
    parsers: Parsers,
    text: seq<byte> -> string,
    txid: Transaction -> string)

  /** The txid a request comes to when nothing is remembered. */
  function Fresh(r: Request, w: Surroundings): Result<string, ApiError> {
    match GatherWhileShort(w.view, r.blockHeight, Addresses.Sort(w.watched), r.amount + r.fee, [])
    case Err(e) => Err(e)
    case Ok(selected) =>
      match Build(selected, r.amount, r.fee, w.text(r.destination), w.parsers)
      case Err(e) => Err(e)
      case Ok((tx, _)) => Ok(w.txid(tx))
  }

  /** Within these bounds a prepared transaction is exactly what the request asks for. */
  ghost predicate Payable(r: Request, w: Surroundings) {
    && r.amount >= 0 && r.fee >= 0 && r.amount + r.fee > 0
    && Queryable(w.view, r.blockHeight, w.watched)
    && forall a :: a in w.watched ==>
         Total(w.view.rows(r.blockHeight, a)) < TWO_TO_THE_63 && Spendable(w.view.rows(r.blockHeight, a), w.parsers)
  }

  /** The txid names a transaction that pays the request from the least funded address, oldest coins first. */
  ghost predicate NamesPayment(txid: string, r: Request, w: Surroundings) {
    exists tx, a, selected ::
      && w.txid(tx) == txid
      && LeastFunded(w.view, r.blockHeight, w.watched, a)
      && OldestFirst(w.view.rows(r.blockHeight, a), r.amount + r.fee, selected)
      && PaysRequest(tx, selected, r.amount, r.fee, w.text(r.destination), w.parsers)
  }

  lemma FreshNamesPayment(r: Request, w: Surroundings)
    requires Payable(r, w) && Fresh(r, w).Ok?
    ensures NamesPayment(Fresh(r, w).value, r, w)
  {
    hide Build, GatherWhileShort, Addresses.Sort, PaysRequest, OldestFirst, Total;
    var needed := r.amount + r.fee;
    LeastFundedPays(w.view, r.blockHeight, w.watched, needed);
    var selected := GatherWhileShort(w.view, r.blockHeight, Addresses.Sort(w.watched), needed, []).value;
    var a :| LeastFunded(w.view, r.blockHeight, w.watched, a) && OldestFirst(w.view.rows(r.blockHeight, a), needed, selected);
    var rows := w.view.rows(r.blockHeight, a);
    OldestFirstMeans(rows, needed, selected);
    SmallerTotal(selected, rows);
    forall u | u in selected ensures u in rows {
      assert u in multiset(selected);
    }
    BuiltPaysRequest(selected, r.amount, r.fee, w.text(r.destination), w.parsers);
  }

  /** Such a request fails only for want of a parseable destination or of funds at the least funded address. */
  lemma FreshFailsIff(r: Request, w: Surroundings)
    requires Payable(r, w)
    ensures Fresh(r, w).Err? <==>
      || w.parsers.address(w.text(r.destination)).None?
      || forall a :: LeastFunded(w.view, r.blockHeight, w.watched, a) ==>
           Total(w.view.rows(r.blockHeight, a)) < r.amount + r.fee
  {
    hide Build, GatherWhileShort, Addresses.Sort, Addresses.Precedes, Total;
    var needed := r.amount + r.fee;
    LeastFundedPays(w.view, r.blockHeight, w.watched, needed);
    var found := GatherWhileShort(w.view, r.blockHeight, Addresses.Sort(w.watched), needed, []);
    if found.Ok? {
      BuildFailsIff(found.value, r.amount, r.fee, w.text(r.destination), w.parsers);
      var a :| LeastFunded(w.view, r.blockHeight, w.watched, a) && OldestFirst(w.view.rows(r.blockHeight, a), needed, found.value);
      OldestFirstMeans(w.view.rows(r.blockHeight, a), needed, found.value);
      SmallerTotal(found.value, w.view.rows(r.blockHeight, a));
    }
  }

  type Cache = map<string, string>

  /** The answer, given what working the request out would come to; and the cache afterwards. */
  function Answer(cache: Cache, key: string, fromScratch: Result<string, ApiError>): Result<string, ApiError> {
    if key in cache then Ok(cache[key]) else fromScratch
  }

  function Remember(cache: Cache, key: string, fromScratch: Result<string, ApiError>): Cache {
    if key in cache || fromScratch.Err? then cache else cache[key := fromScratch.value]
  }

  class PrepareHandler {
    const hash: seq<byte> -> string
    var cache: Cache

    constructor (hash: seq<byte> -> string, loaded: Cache)
      ensures this.hash == hash && cache == loaded
    {
      this.hash := hash;
      cache := loaded;
    }

    method Prepare(req: Request, w: Surroundings) returns (r: Result<string, ApiError>)
      modifies this`cache
      ensures r == Answer(old(cache), hash(Preimage(req)), Fresh(req, w))
      ensures cache == Remember(old(cache), hash(Preimage(req)), Fresh(req, w))
      ensures hash(Preimage(req)) !in old(cache) && Payable(req, w) && r.Ok? ==> NamesPayment(r.value, req, w)
    {
      hide Payable, NamesPayment, Build, GatherWhileShort, Addresses.Sort, Queryable, PaidByLeast, Preimage;
      if Payable(req, w) && Fresh(req, w).Ok? {
        FreshNamesPayment(req, w);
      }
      var key := hash(Preimage(req));
      if key in cache {
        return Ok(cache[key]);
      }
      var totalNeeded := req.amount + req.fee;
      var selection := FetchSelectedUtxosDeterministic(w.view, w.watched, req.blockHeight, totalNeeded);
      if selection.Err? {
        return Err(selection.error);
      }
      var built := BuildUnsignedTransaction(selection.value, req.amount, req.fee, w.text(req.destination), w.parsers);
      if built.Err? {
        return Err(built.error);
      }
      var txid := w.txid(built.value.0);
      cache := cache[key := txid];
      r := Ok(txid);
    }
  }

  // ---- runs of requests, one at a time, with anything happening between them ----

  /** A request, and what working it out would come to at that moment. */
  datatype Arrival = Arrival(req: Request, fromScratch: Result<string, ApiError>)

  function CacheAfter(hash: seq<byte> -> string, start: Cache, run: seq<Arrival>): Cache {
    if run == [] then start
    else
      var last := run[|run| - 1];
      Remember(CacheAfter(hash, start, run[..|run| - 1]), hash(Preimage(last.req)), last.fromScratch)
  }

  function AnswerTo(hash: seq<byte> -> string, start: Cache, run: seq<Arrival>, i: nat): Result<string, ApiError>
    requires i < |run|
  {
    Answer(CacheAfter(hash, start, run[..i]), hash(Preimage(run[i].req)), run[i].fromScratch)
  }

  ghost predicate Keeps(before: Cache, after: Cache) {
    forall key :: key in before ==> key in after && after[key] == before[key]
  }

  /** Entries never change once they are there. */
  lemma {:induction false} Remembered(hash: seq<byte> -> string, start: Cache, run: seq<Arrival>, i: nat)
    requires i <= |run|
    ensures Keeps(CacheAfter(hash, start, run[..i]), CacheAfter(hash, start, run))
  {
    hide Preimage;
    if i < |run| {
      var n := |run| - 1;
      assert run[..n][..i] == run[..i];
      Remembered(hash, start, run[..n], i);
    } else {
      assert run[..i] == run;
    }
  }

  /** Once a request has succeeded, every later repetition is answered with the same txid. */
  lemma RepeatsAgree(hash: seq<byte> -> string, start: Cache, run: seq<Arrival>, i: nat, j: nat)
    requires i < j < |run| && run[i].req == run[j].req && AnswerTo(hash, start, run, i).Ok?
    ensures AnswerTo(hash, start, run, j) == AnswerTo(hash, start, run, i)
  {
    hide Preimage;
    var key := hash(Preimage(run[i].req));
    assert run[..i + 1][..i] == run[..i];
    assert run[..j][..i + 1] == run[..i + 1];
    Remembered(hash, start, run[..j], i + 1);
    assert key in CacheAfter(hash, start, run[..i + 1]);
  }

  /** The hash has no collision among the requests of the run. */
  ghost predicate CollisionFree(hash: seq<byte> -> string, run: seq<Arrival>) {
    forall i, j :: 0 <= i < |run| && 0 <= j < |run| && hash(Preimage(run[i].req)) == hash(Preimage(run[j].req)) ==>
      Preimage(run[i].req) == Preimage(run[j].req)
  }

  /** An answer never belongs to another request: it was worked out for this very request. */
  lemma AnswersBelong(hash: seq<byte> -> string, run: seq<Arrival>, j: nat)
    requires j < |run| && CollisionFree(hash, run) && (forall i :: 0 <= i < |run| ==> run[i].req.InRange())
    requires AnswerTo(hash, map[], run, j).Ok?
    ensures exists i :: 0 <= i <= j && run[i].req == run[j].req
                     && AnswerTo(hash, map[], run, j) == run[i].fromScratch
  {
    var key := hash(Preimage(run[j].req));
    if key in CacheAfter(hash, map[], run[..j]) {
      var i := Origin(hash, run[..j], key);
      PreimageIsInjective(run[i].req, run[j].req);
    }
  }

  lemma {:induction false} Origin(hash: seq<byte> -> string, run: seq<Arrival>, key: string) returns (i: nat)
    requires key in CacheAfter(hash, map[], run)
    ensures i < |run| && hash(Preimage(run[i].req)) == key
    ensures run[i].fromScratch == Ok(CacheAfter(hash, map[], run)[key])
  {
    var n := |run| - 1;
    if key in CacheAfter(hash, map[], run[..n]) {
      i := Origin(hash, run[..n], key);
    } else {
      i := n;
    }
  }
}

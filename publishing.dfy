/**
 * The daily run of Horoscope.py: one card per zodiac sign is generated and
 * its path collected (main), and the collected images are posted to the
 * channel in groups (send_media_in_batches), with a pause after every group.
 * Generating a card, opening a file and posting a group are outside calls;
 * their outcomes are parameters.
 */
module Publishing {
  import opened Wrappers
  import opened Seqs

  // -------------------------------------------------------------- batches

  function Min(a: int, b: int): int {
    if a <= b then a else b
  }

  /**
   * The slices media_files[i:i + size] for i = 0, size, 2 * size, ... below
   * the length; the last slice is cut short by the end of the list.
   */
  function Batches<T>(files: seq<T>, size: nat): seq<seq<T>>
    requires size > 0
    decreases |files|
  {
    if files == [] then []
    else
      var k := Min(size, |files|);
      [files[..k]] + Batches(files[k..], size)
  }

  /** Putting the batches back together gives the list: nothing is dropped, repeated or reordered. */
  lemma {:induction false} BatchesFlatten<T>(files: seq<T>, size: nat)
    requires size > 0
    ensures Flatten(Batches(files, size)) == files
    decreases |files|
  {
    if files != [] {
      var k := Min(size, |files|);
      BatchesFlatten(files[k..], size);
      assert files[..k] + files[k..] == files;
    }
  }

  /** Every batch is non-empty and holds at most size items; all but the last hold exactly size. */
  lemma {:induction false} BatchesSizes<T>(files: seq<T>, size: nat)
    requires size > 0
    ensures forall b :: 0 <= b < |Batches(files, size)| ==>
      0 < |Batches(files, size)[b]| <= size
    ensures forall b :: 0 <= b < |Batches(files, size)| - 1 ==>
      |Batches(files, size)[b]| == size
    decreases |files|
  {
    if files != [] {
      var k := Min(size, |files|);
      BatchesSizes(files[k..], size);
      var bs := Batches(files, size);
      var rest := Batches(files[k..], size);
      assert bs == [files[..k]] + rest;
      assert rest != [] ==> k == size;
      forall b | 1 <= b < |bs|
        ensures bs[b] == rest[b - 1]
      {
      }
    }
  }

  /** There are ceil(n / size) batches: none for an empty list, otherwise the fewest that hold n items. */
  lemma {:induction false} BatchesCount<T>(files: seq<T>, size: nat)
    requires size > 0
    ensures files == [] <==> |Batches(files, size)| == 0
    ensures files != [] ==>
      (|Batches(files, size)| - 1) * size < |files| <= |Batches(files, size)| * size
    decreases |files|
  {
    if files != [] {
      var k := Min(size, |files|);
      BatchesCount(files[k..], size);
      var c := |Batches(files[k..], size)|;
      assert |Batches(files, size)| == c + 1;
      assert (c + 1) * size == c * size + size;
    }
  }

  // -------------------------------------------------------------- sending

  /** One observable step of send_media_in_batches. */
  datatype Step =
    | Sent(batch: seq<string>)        // send_media_group accepted the group
    | SendFailed(batch: seq<string>)  // send_media_group raised; the error is logged
    | Slept(seconds: int)             // asyncio.sleep(delay)

  /** How send_media_in_batches ends. */
  datatype Outcome =
    | Completed
    | InvalidStep            // range() with a step of 0 raises ValueError
    | FileMissing(path: string)  // open() raised outside the try; the exception escapes

  datatype Delivery = Delivery(steps: seq<Step>, outcome: Outcome)

  /** The first file of a batch that cannot be opened, in the order they are opened. */
  function FirstUnreadable(batch: seq<string>, readable: string -> bool): Option<string> {
    FirstUnreadableFrom(batch, 0, readable)
  }

  function FirstUnreadableFrom(batch: seq<string>, k: nat, readable: string -> bool): Option<string>
    requires k <= |batch|
    decreases |batch| - k
  {
    if k == |batch| then None
    else if !readable(batch[k]) then Some(batch[k])
    else FirstUnreadableFrom(batch, k + 1, readable)
  }

  /** Opening fails exactly when some file is unreadable, and then it names such a file. */
  lemma FirstUnreadableMeaning(batch: seq<string>, readable: string -> bool)
    ensures FirstUnreadable(batch, readable).None? <==> forall f :: f in batch ==> readable(f)
    ensures FirstUnreadable(batch, readable).Some? ==>
      FirstUnreadable(batch, readable).value in batch && !readable(FirstUnreadable(batch, readable).value)
  {
    FirstUnreadableFromMeaning(batch, 0, readable);
  }

  lemma {:induction false} FirstUnreadableFromMeaning(batch: seq<string>, k: nat, readable: string -> bool)
    requires k <= |batch|
    ensures var r := FirstUnreadableFrom(batch, k, readable);
      && (r.None? <==> forall m :: k <= m < |batch| ==> readable(batch[m]))
      && (r.Some? ==> exists m :: k <= m < |batch| && batch[m] == r.value && !readable(r.value))
    decreases |batch| - k
  {
    if k < |batch| && readable(batch[k]) {
      FirstUnreadableFromMeaning(batch, k + 1, readable);
    }
  }

  function SendStep(batch: seq<string>, accepted: bool): Step {
    if accepted then Sent(batch) else SendFailed(batch)
  }

  /**
   * What happens from batch j on: the files of the batch are opened (an
   * unreadable one ends the whole call), the group is sent, whatever the
   * send does the call sleeps, and the next batch follows.  delivered(j)
   * is the outcome of the j-th send.
   */
  function SendFrom(batches: seq<seq<string>>, j: nat, delay: int,
                    readable: string -> bool, delivered: nat -> bool): Delivery
    requires j <= |batches|
    decreases |batches| - j
  {
    if j == |batches| then Delivery([], Completed)
    else match FirstUnreadable(batches[j], readable)
      case Some(path) => Delivery([], FileMissing(path))
      case None =>
        var rest := SendFrom(batches, j + 1, delay, readable, delivered);
        Delivery([SendStep(batches[j], delivered(j)), Slept(delay)] + rest.steps, rest.outcome)
  }

  /**
   * The same, stepping through the list as the loop does: the batch taken
   * at offset i is files[i:i + size], the next offset is i + size.
   */
  function SendAt(files: seq<string>, i: nat, size: nat, j: nat, delay: int,
                  readable: string -> bool, delivered: nat -> bool): Delivery
    requires size > 0
    decreases |files| - i
  {
    if i >= |files| then Delivery([], Completed)
    else
      var batch := files[i..i + Min(size, |files| - i)];
      match FirstUnreadable(batch, readable)
      case Some(path) => Delivery([], FileMissing(path))
      case None =>
        var rest := SendAt(files, i + size, size, j + 1, delay, readable, delivered);
        Delivery([SendStep(batch, delivered(j)), Slept(delay)] + rest.steps, rest.outcome)
  }

  /** Stepping by offsets is sending the batches one after the other. */
  lemma {:induction false} SendAtBatches(files: seq<string>, i: nat, size: nat, all: seq<seq<string>>, j: nat,
                                         delay: int, readable: string -> bool, delivered: nat -> bool)
    requires size > 0 && j <= |all|
    requires all[j..] == Batches(files[Min(i, |files|)..], size)
    ensures SendAt(files, i, size, j, delay, readable, delivered) == SendFrom(all, j, delay, readable, delivered)
    decreases |files| - i
  {
    if i < |files| {
      NextBatch(files, i, size, all, j);
      RestBatches(files, i, size, all, j);
      SendAtBatches(files, i + size, size, all, j + 1, delay, readable, delivered);
    } else {
      assert files[Min(i, |files|)..] == [];
    }
  }

  method SendMediaInBatches(files: seq<string>, batchSize: int, delay: int,
                            readable: string -> bool, delivered: nat -> bool)
    returns (steps: seq<Step>, outcome: Outcome)
    ensures batchSize == 0 ==> steps == [] && outcome == InvalidStep
    ensures batchSize < 0 ==> steps == [] && outcome == Completed
    ensures batchSize > 0 ==>
      Delivery(steps, outcome) == SendFrom(Batches(files, batchSize), 0, delay, readable, delivered)
  {
    if batchSize == 0 {
      return [], InvalidStep;
    }
    steps, outcome := [], Completed;
    if batchSize < 0 {
      // range(0, n, step) with a negative step and n >= 0 is empty
      return;
    }
    ghost var whole := SendAt(files, 0, batchSize, 0, delay, readable, delivered);
    SendAtBatches(files, 0, batchSize, Batches(files, batchSize), 0, delay, readable, delivered);
    ghost var rest := whole;
    var i, j := 0, 0;
    while i < |files|
      invariant 0 <= i
      invariant rest == SendAt(files, i, batchSize, j, delay, readable, delivered)
      invariant whole == Delivery(steps + rest.steps, rest.outcome)
      invariant outcome == Completed
      decreases |files| - i
    {
      var batch := files[i..i + Min(batchSize, |files| - i)];
      var missing := FirstUnreadable(batch, readable);
      if missing.Some? {
        assert rest == Delivery([], FileMissing(missing.value));
        assert steps + [] == steps;
        return steps, FileMissing(missing.value);
      }
      var pair := [SendStep(batch, delivered(j)), Slept(delay)];
      ghost var next := SendAt(files, i + batchSize, batchSize, j + 1, delay, readable, delivered);
      assert rest == Delivery(pair + next.steps, next.outcome);
      AppendAssoc(steps, pair, next.steps);
      steps, rest := steps + pair, next;
      i, j := i + batchSize, j + 1;
    }
    assert steps + [] == steps;
  }

  /** The slice at offset i is batch j. */
  lemma NextBatch(files: seq<string>, i: int, size: int, all: seq<seq<string>>, j: nat)
    requires 0 <= i < |files| && size > 0 && j <= |all|
    requires all[j..] == Batches(files[Min(i, |files|)..], size)
    ensures j < |all| && all[j] == files[i..i + Min(size, |files| - i)]
  {
    var k := Min(size, |files| - i);
    assert files[i..][..k] == files[i..i + k];
    assert all[j..][0] == all[j];
  }

  /** The batches after batch j are those of the list after its slice. */
  lemma RestBatches(files: seq<string>, i: int, size: int, all: seq<seq<string>>, j: nat)
    requires 0 <= i < |files| && size > 0 && j < |all|
    requires all[j..] == Batches(files[Min(i, |files|)..], size)
    ensures all[j + 1..] == Batches(files[Min(i + size, |files|)..], size)
  {
    var k := Min(size, |files| - i);
    var tail := files[i..];
    assert Min(i, |files|) == i && Min(i + size, |files|) == i + k;
    assert Batches(tail, size) == [tail[..k]] + Batches(tail[k..], size);
    assert tail[k..] == files[i + k..];
    assert all[j..][1..] == all[j + 1..];
  }

  /**
   * The steps come in pairs, one per batch attempted in order: the send of
   * batch k (accepted or not) and then a sleep of delay seconds.
   */
  ghost predicate PairedSteps(batches: seq<seq<string>>, j: nat, steps: seq<Step>, delay: int,
                              delivered: nat -> bool)
  {
    && |steps| % 2 == 0
    && j + |steps| / 2 <= |batches|
    && forall k :: 0 <= k < |steps| / 2 ==>
         steps[2 * k] == SendStep(batches[j + k], delivered(j + k)) && steps[2 * k + 1] == Slept(delay)
  }

  /** One sleep per batch, even when the send fails: the steps pair up with the batches, in order. */
  lemma {:induction false} SendFromPaired(batches: seq<seq<string>>, j: nat, delay: int,
                                          readable: string -> bool, delivered: nat -> bool)
    requires j <= |batches|
    ensures PairedSteps(batches, j, SendFrom(batches, j, delay, readable, delivered).steps, delay, delivered)
    decreases |batches| - j
  {
    if j < |batches| && FirstUnreadable(batches[j], readable).None? {
      SendFromPaired(batches, j + 1, delay, readable, delivered);
      var rest := SendFrom(batches, j + 1, delay, readable, delivered);
      var steps := [SendStep(batches[j], delivered(j)), Slept(delay)] + rest.steps;
      assert SendFrom(batches, j, delay, readable, delivered).steps == steps;
      forall k | 0 <= k < |steps| / 2
        ensures steps[2 * k] == SendStep(batches[j + k], delivered(j + k))
           && steps[2 * k + 1] == Slept(delay)
      {
        if k > 0 {
          assert steps[2 * k] == rest.steps[2 * (k - 1)];
          assert steps[2 * k + 1] == rest.steps[2 * (k - 1) + 1];
        }
      }
    }
  }

  /**
   * The call completes exactly when every file can be opened, and then
   * every batch was sent; otherwise it stops at an unreadable file of the
   * first batch that was not sent.
   */
  lemma {:induction false} SendFromOutcome(batches: seq<seq<string>>, j: nat, delay: int,
                                           readable: string -> bool, delivered: nat -> bool)
    requires j <= |batches|
    ensures var d := SendFrom(batches, j, delay, readable, delivered);
      && !d.outcome.InvalidStep?
      && (d.outcome == Completed <==>
            forall b, f :: j <= b < |batches| && f in batches[b] ==> readable(f))
      && (d.outcome == Completed ==> |d.steps| == 2 * (|batches| - j))
      && (d.outcome.FileMissing? ==>
            var b := j + |d.steps| / 2;
            b < |batches| && d.outcome.path in batches[b] && !readable(d.outcome.path))
    decreases |batches| - j
  {
    if j < |batches| {
      FirstUnreadableMeaning(batches[j], readable);
      if FirstUnreadable(batches[j], readable).None? {
        SendFromOutcome(batches, j + 1, delay, readable, delivered);
      }
    }
  }

  /** With every file readable, the batches are sent in order and each is followed by one sleep. */
  lemma AllReadableSendsEveryBatch(files: seq<string>, batchSize: nat, delay: int,
                                   readable: string -> bool, delivered: nat -> bool)
    requires batchSize > 0
    requires forall f :: f in files ==> readable(f)
    ensures var bs := Batches(files, batchSize);
      var d := SendFrom(bs, 0, delay, readable, delivered);
      && d.outcome == Completed
      && |d.steps| == 2 * |bs|
      && forall k :: 0 <= k < |bs| ==>
           d.steps[2 * k] == SendStep(bs[k], delivered(k)) && d.steps[2 * k + 1] == Slept(delay)
  {
    var bs := Batches(files, batchSize);
    BatchesFlatten(files, batchSize);
    forall b, f | 0 <= b < |bs| && f in bs[b]
      ensures readable(f)
    {
      InFlatten(bs, b, f);
    }
    SendFromPaired(bs, 0, delay, readable, delivered);
    SendFromOutcome(bs, 0, delay, readable, delivered);
  }

  lemma {:induction false} InFlatten<T>(xss: seq<seq<T>>, b: nat, x: T)
    requires b < |xss| && x in xss[b]
    ensures x in Flatten(xss)
    decreases b
  {
    if b > 0 {
      InFlatten(xss[1..], b - 1, x);
    }
  }

  // -------------------------------------------------------------- collecting the cards

  const ImageFolder: string := "./horoscope_images"

  /** The file a sign's card is saved to: the sign's name with ".jpg", in the image folder. */
  function ImagePath(sign: string): (p: string)
    ensures |p| == |ImageFolder| + 1 + |sign| + 4
    ensures p[|ImageFolder| + 1..|p| - 4] == sign
  {
    ImageFolder + "/" + sign + ".jpg"
  }

  lemma ImagePathInjective(a: string, b: string)
    requires ImagePath(a) == ImagePath(b)
    ensures a == b
  {
    var p := ImagePath(a);
    assert p[|ImageFolder| + 1..|p| - 4] == b;
  }

  /**
   * The paths of the signs whose generation step did not raise, in the
   * order of the signs; ok(s) is that step's outcome for sign s.
   */
  function Collected(signs: seq<string>, ok: string -> bool): seq<string>
    decreases |signs|
  {
    if signs == [] then []
    else
      var last := signs[|signs| - 1];
      Collected(signs[..|signs| - 1], ok) + (if ok(last) then [ImagePath(last)] else [])
  }

  /** The loop in main: generate, draw, and append the path only once both have returned. */
  method CollectHoroscopeImages(signs: seq<string>, ok: string -> bool) returns (paths: seq<string>)
    ensures paths == Collected(signs, ok)
  {
    paths := [];
    for i := 0 to |signs|
      invariant paths == Collected(signs[..i], ok)
    {
      assert signs[..i + 1][..i] == signs[..i];
      if ok(signs[i]) {
        paths := paths + [ImagePath(signs[i])];
      }
    }
    assert signs[..|signs|] == signs;
  }

  /** A path is collected exactly when it belongs to a sign whose step succeeded. */
  lemma {:induction false} CollectedMembers(signs: seq<string>, ok: string -> bool, p: string)
    ensures p in Collected(signs, ok) <==> exists s :: s in signs && ok(s) && p == ImagePath(s)
    decreases |signs|
  {
    if signs != [] {
      var init, last := signs[..|signs| - 1], signs[|signs| - 1];
      CollectedMembers(init, ok, p);
      assert signs == init + [last];
      if p in Collected(signs, ok) && p !in Collected(init, ok) {
        assert ok(last) && p == ImagePath(last);
      }
    }
  }

  /** Order is kept: the paths of the earlier signs come before those of the later ones. */
  lemma {:induction false} CollectedSplit(signs: seq<string>, m: nat, ok: string -> bool)
    requires m <= |signs|
    ensures Collected(signs, ok) == Collected(signs[..m], ok) + Collected(signs[m..], ok)
    decreases |signs|
  {
    if m < |signs| {
      var init := signs[..|signs| - 1];
      CollectedSplit(init, m, ok);
      assert init[..m] == signs[..m];
      assert signs[m..][..|signs[m..]| - 1] == init[m..];
    } else {
      assert signs[..m] == signs;
    }
  }

  /** At most one path per sign; when every step succeeds, one path for every sign in order. */
  lemma {:induction false} CollectedLength(signs: seq<string>, ok: string -> bool)
    ensures |Collected(signs, ok)| <= |signs|
    ensures (forall s :: s in signs ==> ok(s)) ==>
      Collected(signs, ok) == seq(|signs|, k requires 0 <= k < |signs| => ImagePath(signs[k]))
    decreases |signs|
  {
    if signs != [] {
      var init := signs[..|signs| - 1];
      CollectedLength(init, ok);
    }
  }

  /** Distinct signs give distinct paths: no card is posted twice. */
  lemma {:induction false} CollectedDistinct(signs: seq<string>, ok: string -> bool)
    requires forall a, b :: 0 <= a < b < |signs| ==> signs[a] != signs[b]
    ensures var c := Collected(signs, ok);
      forall a, b :: 0 <= a < b < |c| ==> c[a] != c[b]
    decreases |signs|
  {
    if signs != [] {
      var init, last := signs[..|signs| - 1], signs[|signs| - 1];
      CollectedDistinct(init, ok);
      if ok(last) {
        var c := Collected(init, ok);
        forall a | 0 <= a < |c|
          ensures c[a] != ImagePath(last)
        {
          CollectedMembers(init, ok, c[a]);
          var s :| s in init && ok(s) && c[a] == ImagePath(s);
          if c[a] == ImagePath(last) {
            ImagePathInjective(s, last);
            assert false;
          }
        }
      }
    }
  }

  /** ZODIAC_SIGNS of Horoscope.py, Aries to Pisces (the same twelve names,
      in the same order, as the table of degree_to_sign). */
  const ZodiacSigns: seq<string> :=
    ["Овен", "Телец", "Близнецы", "Рак",
     "Лев", "Дева", "Весы", "Скорпион",
     "Стрелец", "Козерог", "Водолей", "Рыбы"]

  /** The twelve sign names are pairwise distinct. */
  lemma SignsDistinct()
    ensures forall a, b :: 0 <= a < b < |ZodiacSigns| ==> ZodiacSigns[a] != ZodiacSigns[b]
  {
  }

  // -------------------------------------------------------------- the daily run

  const BatchSize: nat := 6
  const Delay: int := 5

  /**
   * main without the card of the day: collect the twelve cards, then post
   * them six at a time with a five-second pause.  The card of the day is
   * reached only when posting does not raise.
   */
  method DailyRun(ok: string -> bool, readable: string -> bool, delivered: nat -> bool)
    returns (paths: seq<string>, steps: seq<Step>, reachesCardOfTheDay: bool)
    ensures paths == Collected(ZodiacSigns, ok)
    ensures |paths| <= 12 && forall a, b :: 0 <= a < b < |paths| ==> paths[a] != paths[b]
    ensures var d := SendFrom(Batches(paths, BatchSize), 0, Delay, readable, delivered);
      steps == d.steps && (reachesCardOfTheDay <==> d.outcome == Completed)
  {
    paths := CollectHoroscopeImages(ZodiacSigns, ok);
    CollectedLength(ZodiacSigns, ok);
    SignsDistinct();
    CollectedDistinct(ZodiacSigns, ok);
    var outcome;
    steps, outcome := SendMediaInBatches(paths, BatchSize, Delay, readable, delivered);
    reachesCardOfTheDay := outcome == Completed;
  }
}

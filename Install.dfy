/** The end-to-end install: resolve the features, pad the image to its fixed
    size, and write every enabled feature's injections into it in order. */
module Install {
  import opened Base
  import opened HexCodec
  import opened PatchApply
  import opened Features

  /** The size of every patched image: 3072 KiB. */
  const ImageSize: nat := 3072 * 1024

  /** The source image followed by zeros up to `ImageSize` bytes. */
  function Padded(exe: seq<Byte>): (r: seq<Byte>)
    requires |exe| <= ImageSize
    ensures |r| == ImageSize
    ensures r[..|exe|] == exe
    ensures forall k :: |exe| <= k < ImageSize ==> r[k] == 0
  {
    exe + seq(ImageSize - |exe|, _ => 0)
  }

  // ----- address correction -----

  lemma MulAtLeast(b: int, x: int)
    requires b > 0 && x >= 1
    ensures b * x >= b
  {
  }

  lemma MulSucc(c: int, b: int)
    ensures (c + 1) * b == c * b + b
  {
  }

  /** Euclidean remainders are unique. */
  lemma ModUnique(a: int, b: int, q: int, m: int)
    requires b > 0 && 0 <= m < b && a == b * q + m
    ensures a % b == m
  {
    var q' := a / b;
    if q' > q {
      MulAtLeast(b, q' - q);
    } else if q' < q {
      MulAtLeast(b, q - q');
    }
  }

  lemma ModSubtract(a: int, b: int)
    requires b > 0
    ensures (a - b) % b == a % b
  {
    ModUnique(a - b, b, a / b - 1, a % b);
  }

  /** The address an injection lands at: while it lies beyond the end of the
      buffer, the buffer's length is taken off it. The test is `>`, not `>=`,
      so an address equal to the length is kept. */
  function Reduce(addr: nat, len: nat): (r: nat)
    requires len > 0
    ensures r <= len
    ensures r % len == addr % len
    ensures r == addr <==> addr <= len
    ensures addr > len ==> 0 < r
    decreases addr
  {
    if addr <= len then addr
    else
      ModSubtract(addr, len);
      Reduce(addr - len, len)
  }

  /** The correction loop of `install_into`, with the number of corrections
      it makes (each one is reported as a warning). */
  method ReduceAddress(addr: nat, len: nat) returns (a: nat, ghost corrections: nat)
    requires len > 0
    ensures a == Reduce(addr, len)
    ensures addr == a + corrections * len
  {
    a, corrections := addr, 0;
    while a > len
      invariant Reduce(a, len) == Reduce(addr, len)
      invariant addr == a + corrections * len
    {
      MulSucc(corrections, len);
      a := a - len;
      corrections := corrections + 1;
    }
  }

  /** A non-zero multiple of the length is corrected to the length itself,
      one past the last byte. */
  lemma {:induction false} ReduceMultiple(k: nat, len: nat)
    requires k >= 1 && len > 0
    ensures Reduce(k * len, len) == len
  {
    if k > 1 {
      MulSucc(k - 1, len);
      MulAtLeast(len, k - 1);
      ReduceMultiple(k - 1, len);
    }
  }

  // ----- the transform, as functions -----

  /** One injection: decode its payload, correct its address, and overwrite
      the image there; the decode and the bounds check can abort. */
  function InjectStep(image: seq<Byte>, inj: Injection): (r: Result<seq<Byte>, Error>)
    requires |image| > 0
    ensures r.Success? ==> |r.value| == |image|
  {
    match HexDecode(inj.payload)
    case Failure(e) => Failure(e)
    case Success(patch) =>
      var addr := Reduce(inj.offset, |image|);
      if addr + |patch| <= |image| then Success(Overwrite(image, addr, patch))
      else Failure(OutOfBounds)
  }

  /** A feature's injections, in declaration order; the first abort ends it. */
  function ApplyInjections(image: seq<Byte>, injections: seq<Injection>): (r: Result<seq<Byte>, Error>)
    requires |image| > 0
    ensures r.Success? ==> |r.value| == |image|
    decreases |injections|
  {
    if injections == [] then Success(image)
    else
      match InjectStep(image, injections[0])
      case Failure(e) => Failure(e)
      case Success(next) => ApplyInjections(next, injections[1..])
  }

  /** The resolved features, in catalog order: disabled ones are skipped, and
      each enabled one applies its injections to the image left by the ones
      before it. */
  function ApplyFeatures(image: seq<Byte>, features: seq<Feature>): (r: Result<seq<Byte>, Error>)
    requires |image| > 0
    ensures r.Success? ==> |r.value| == |image|
    decreases |features|
  {
    if features == [] then Success(image)
    else if !features[0].enabled then ApplyFeatures(image, features[1..])
    else
      match ApplyInjections(image, features[0].patches)
      case Failure(e) => Failure(e)
      case Success(next) => ApplyFeatures(next, features[1..])
  }

  /** The meaning of `install_into`: resolution first (aborting on a
      non-optional feature), then the size check of the padding, then the
      injections. A successful install always yields `ImageSize` bytes. */
  function Install(exe: seq<Byte>, catalog: seq<Feature>, o: InstallOptions): (r: Result<seq<Byte>, Error>)
    ensures !AllOptional(catalog) ==> r == Failure(IllegalToggle(catalog[FirstNonOptional(catalog)].name))
    ensures AllOptional(catalog) && |exe| > ImageSize ==> r == Failure(Oversized)
    ensures r.Success? ==> |r.value| == ImageSize
  {
    match ConfigureFeatures(catalog, o)
    case Failure(e) => Failure(e)
    case Success(features) =>
      if |exe| > ImageSize then Failure(Oversized) else ApplyFeatures(Padded(exe), features)
  }

  // ----- what the transform promises -----

  /** The enabled features, in order. */
  function EnabledOnly(features: seq<Feature>): (r: seq<Feature>)
    ensures |r| <= |features|
    ensures forall i :: 0 <= i < |r| ==> r[i].enabled
  {
    if features == [] then []
    else (if features[0].enabled then [features[0]] else []) + EnabledOnly(features[1..])
  }

  /** Disabled features write nothing: the result is that of the enabled
      features alone. */
  lemma {:induction false} DisabledFeaturesAreSkipped(image: seq<Byte>, features: seq<Feature>)
    requires |image| > 0
    ensures ApplyFeatures(image, features) == ApplyFeatures(image, EnabledOnly(features))
    decreases |features|
  {
    if features != [] {
      var rest := EnabledOnly(features[1..]);
      if features[0].enabled {
        var both := [features[0]] + rest;
        assert both[0] == features[0] && both[1..] == rest;
        match ApplyInjections(image, features[0].patches)
        case Failure(_) =>
        case Success(next) => DisabledFeaturesAreSkipped(next, features[1..]);
      } else {
        assert EnabledOnly(features) == rest;
        DisabledFeaturesAreSkipped(image, features[1..]);
      }
    }
  }

  /** With every feature disabled, the image comes through unchanged. */
  lemma {:induction false} NothingEnabledIsIdentity(image: seq<Byte>, features: seq<Feature>)
    requires |image| > 0
    requires forall i :: 0 <= i < |features| ==> !features[i].enabled
    ensures ApplyFeatures(image, features) == Success(image)
    decreases |features|
  {
    if features != [] {
      NothingEnabledIsIdentity(image, features[1..]);
    }
  }

  /** When the options enable no feature, the install is the source image
      followed by zeros up to `ImageSize` bytes. */
  lemma InstallWithNothingEnabled(exe: seq<Byte>, catalog: seq<Feature>, o: InstallOptions)
    requires AllOptional(catalog) && |exe| <= ImageSize
    requires forall i :: 0 <= i < |catalog| ==> !RequestedState(catalog[i], o)
    ensures Install(exe, catalog, o) == Success(exe + seq(ImageSize - |exe|, _ => 0))
  {
    var features := ConfigureFeatures(catalog, o).value;
    assert forall i :: 0 <= i < |features| ==> features[i].enabled == RequestedState(catalog[i], o);
    NothingEnabledIsIdentity(Padded(exe), features);
  }

  /** Whether an injection, applied to an image of `len` bytes, writes byte `k`. */
  predicate Writes(inj: Injection, len: nat, k: nat)
    requires len > 0
  {
    match HexDecode(inj.payload)
    case Failure(_) => false
    case Success(patch) =>
      var addr := Reduce(inj.offset, len);
      addr <= k < addr + |patch|
  }

  /** A byte no injection writes keeps its value. */
  lemma {:induction false} InjectionsKeepUnwrittenBytes(image: seq<Byte>, injections: seq<Injection>, k: nat)
    requires |image| > 0 && k < |image|
    requires ApplyInjections(image, injections).Success?
    requires forall i :: 0 <= i < |injections| ==> !Writes(injections[i], |image|, k)
    ensures ApplyInjections(image, injections).value[k] == image[k]
    decreases |injections|
  {
    if injections != [] {
      var next := InjectStep(image, injections[0]).value;
      assert !Writes(injections[0], |image|, k);
      assert forall i :: 0 <= i < |injections[1..]| ==> injections[1..][i] == injections[i + 1];
      InjectionsKeepUnwrittenBytes(next, injections[1..], k);
    }
  }

  /** A byte no injection of an enabled feature writes keeps its value. */
  lemma {:induction false} FeaturesKeepUnwrittenBytes(image: seq<Byte>, features: seq<Feature>, k: nat)
    requires |image| > 0 && k < |image|
    requires ApplyFeatures(image, features).Success?
    requires forall i, j :: 0 <= i < |features| && features[i].enabled && 0 <= j < |features[i].patches| ==>
      !Writes(features[i].patches[j], |image|, k)
    ensures ApplyFeatures(image, features).value[k] == image[k]
    decreases |features|
  {
    if features != [] {
      assert forall i :: 0 <= i < |features[1..]| ==> features[1..][i] == features[i + 1];
      if features[0].enabled {
        InjectionsKeepUnwrittenBytes(image, features[0].patches, k);
        var next := ApplyInjections(image, features[0].patches).value;
        FeaturesKeepUnwrittenBytes(next, features[1..], k);
      } else {
        FeaturesKeepUnwrittenBytes(image, features[1..], k);
      }
    }
  }

  /** Nothing outside the injected ranges changes: a byte that no injection of
      an enabled feature writes is the source byte, or zero past its end. */
  lemma InstallKeepsUnwrittenBytes(exe: seq<Byte>, catalog: seq<Feature>, o: InstallOptions, k: nat)
    requires Install(exe, catalog, o).Success? && k < ImageSize
    requires forall i, j :: 0 <= i < |catalog| && RequestedState(catalog[i], o) && 0 <= j < |catalog[i].patches| ==>
      !Writes(catalog[i].patches[j], ImageSize, k)
    ensures Install(exe, catalog, o).value[k] == if k < |exe| then exe[k] else 0
  {
    var features := ConfigureFeatures(catalog, o).value;
    assert forall i :: 0 <= i < |features| ==>
      features[i].enabled == RequestedState(catalog[i], o) && features[i].patches == catalog[i].patches;
    FeaturesKeepUnwrittenBytes(Padded(exe), features, k);
  }

  /** Injections run in declaration order: appending one runs it on the
      result of the others. */
  lemma {:induction false} ApplyInjectionsAppend(image: seq<Byte>, injections: seq<Injection>, last: Injection)
    requires |image| > 0
    ensures ApplyInjections(image, injections + [last]) ==
      match ApplyInjections(image, injections)
      case Failure(e) => Failure(e)
      case Success(before) => InjectStep(before, last)
    decreases |injections|
  {
    if injections == [] {
      assert [] + [last] == [last];
    } else {
      assert (injections + [last])[0] == injections[0];
      assert (injections + [last])[1..] == injections[1..] + [last];
      match InjectStep(image, injections[0])
      case Failure(_) =>
      case Success(next) => ApplyInjectionsAppend(next, injections[1..], last);
    }
  }

  /** Features run in catalog order: the features after a prefix run on the
      image the prefix leaves, and an abort in the prefix ends the run. */
  lemma {:induction false} ApplyFeaturesAppend(image: seq<Byte>, features: seq<Feature>, later: seq<Feature>)
    requires |image| > 0
    ensures ApplyFeatures(image, features + later) ==
      match ApplyFeatures(image, features)
      case Failure(e) => Failure(e)
      case Success(before) => ApplyFeatures(before, later)
    decreases |features|
  {
    if features == [] {
      assert [] + later == later;
    } else {
      assert (features + later)[0] == features[0];
      assert (features + later)[1..] == features[1..] + later;
      if features[0].enabled {
        match ApplyInjections(image, features[0].patches)
        case Failure(_) =>
        case Success(next) => ApplyFeaturesAppend(next, features[1..], later);
      } else {
        ApplyFeaturesAppend(image, features[1..], later);
      }
    }
  }

  /** On overlap the later injection wins: after a successful run, the last
      injection's range holds exactly its own decoded bytes. */
  lemma LastInjectionWins(image: seq<Byte>, injections: seq<Injection>, last: Injection)
    requires |image| > 0
    requires ApplyInjections(image, injections + [last]).Success?
    ensures HexDecode(last.payload).Success?
    ensures var patch := HexDecode(last.payload).value;
      var addr := Reduce(last.offset, |image|);
      addr + |patch| <= |image| &&
      ApplyInjections(image, injections + [last]).value[addr..addr + |patch|] == patch
  {
    ApplyInjectionsAppend(image, injections, last);
    var before := ApplyInjections(image, injections);
    assert before.Success?;
    var decoded := HexDecode(last.payload);
    assert decoded.Success?;
    var addr := Reduce(last.offset, |before.value|);
    assert |before.value| == |image|;
    assert addr + |decoded.value| <= |image|;
    assert InjectStep(before.value, last) == Success(Overwrite(before.value, addr, decoded.value));
  }

  /** On overlap across features the later one wins too: when feature `n` is
      the last enabled one, the corrected range of its last injection holds
      exactly that injection's payload. */
  lemma LastFeatureWins(image: seq<Byte>, features: seq<Feature>, n: nat, injections: seq<Injection>, last: Injection)
    requires |image| > 0 && n < |features|
    requires features[n].enabled && features[n].patches == injections + [last]
    requires forall i :: n < i < |features| ==> !features[i].enabled
    requires ApplyFeatures(image, features).Success?
    ensures HexDecode(last.payload).Success?
    ensures var patch := HexDecode(last.payload).value;
      var addr := Reduce(last.offset, |image|);
      addr + |patch| <= |image| &&
      ApplyFeatures(image, features).value[addr..addr + |patch|] == patch
  {
    DisabledSuffixWritesNothing(image, features, n + 1);
    var head := features[..n + 1];
    assert head == features[..n] + [features[n]];
    ApplyFeaturesAppend(image, features[..n], [features[n]]);
    LastInjectionWins(ApplyFeatures(image, features[..n]).value, injections, last);
  }

  /** Features after the last enabled one change nothing. */
  lemma DisabledSuffixWritesNothing(image: seq<Byte>, features: seq<Feature>, n: nat)
    requires |image| > 0 && n <= |features|
    requires forall i :: n <= i < |features| ==> !features[i].enabled
    ensures ApplyFeatures(image, features) == ApplyFeatures(image, features[..n])
  {
    var head, tail := features[..n], features[n..];
    assert features == head + tail;
    assert forall i :: 0 <= i < |tail| ==> tail[i] == features[n + i];
    ApplyFeaturesAppend(image, head, tail);
    if ApplyFeatures(image, head).Success? {
      NothingEnabledIsIdentity(ApplyFeatures(image, head).value, tail);
    }
  }

  /** The same for a whole install: when catalog feature `n` is the last one
      the options enable, its last injection's payload is in the installed
      image. */
  lemma LastEnabledInjectionWins(exe: seq<Byte>, catalog: seq<Feature>, o: InstallOptions, n: nat,
                                 injections: seq<Injection>, last: Injection)
    requires Install(exe, catalog, o).Success? && n < |catalog|
    requires RequestedState(catalog[n], o) && catalog[n].patches == injections + [last]
    requires forall i :: n < i < |catalog| ==> !RequestedState(catalog[i], o)
    ensures HexDecode(last.payload).Success?
    ensures var patch := HexDecode(last.payload).value;
      var addr := Reduce(last.offset, ImageSize);
      addr + |patch| <= ImageSize &&
      Install(exe, catalog, o).value[addr..addr + |patch|] == patch
  {
    var features := ConfigureFeatures(catalog, o).value;
    assert Install(exe, catalog, o) == ApplyFeatures(Padded(exe), features);
    LastFeatureWins(Padded(exe), features, n, injections, last);
  }

  /** Nothing is truncated: after a successful run every injection's
      payload decoded and its corrected range lies inside the image. */
  lemma {:induction false} SuccessMeansEveryInjectionFits(image: seq<Byte>, injections: seq<Injection>, j: nat)
    requires |image| > 0 && j < |injections|
    requires ApplyInjections(image, injections).Success?
    ensures HexDecode(injections[j].payload).Success?
    ensures Reduce(injections[j].offset, |image|) + |HexDecode(injections[j].payload).value| <= |image|
    decreases j
  {
    var next := InjectStep(image, injections[0]).value;
    if j > 0 {
      SuccessMeansEveryInjectionFits(next, injections[1..], j - 1);
    }
  }

  /** The same for a run of features: every injection of every enabled
      feature decoded and fit. */
  lemma {:induction false} SuccessMeansEveryFeatureFits(image: seq<Byte>, features: seq<Feature>, i: nat, j: nat)
    requires |image| > 0 && i < |features| && features[i].enabled && j < |features[i].patches|
    requires ApplyFeatures(image, features).Success?
    ensures HexDecode(features[i].patches[j].payload).Success?
    ensures Reduce(features[i].patches[j].offset, |image|) + |HexDecode(features[i].patches[j].payload).value| <= |image|
    decreases i
  {
    if i == 0 {
      SuccessMeansEveryInjectionFits(image, features[0].patches, j);
    } else if features[0].enabled {
      var next := ApplyInjections(image, features[0].patches).value;
      SuccessMeansEveryFeatureFits(next, features[1..], i - 1, j);
    } else {
      SuccessMeansEveryFeatureFits(image, features[1..], i - 1, j);
    }
  }

  /** A successful install truncated nothing: every injection of every
      feature the options enable decoded and fit inside the `ImageSize`
      bytes at its corrected address. */
  lemma InstallMeansEveryInjectionFits(exe: seq<Byte>, catalog: seq<Feature>, o: InstallOptions, i: nat, j: nat)
    requires Install(exe, catalog, o).Success?
    requires i < |catalog| && RequestedState(catalog[i], o) && j < |catalog[i].patches|
    ensures HexDecode(catalog[i].patches[j].payload).Success?
    ensures Reduce(catalog[i].patches[j].offset, ImageSize) + |HexDecode(catalog[i].patches[j].payload).value| <= ImageSize
  {
    var features := ConfigureFeatures(catalog, o).value;
    assert Install(exe, catalog, o) == ApplyFeatures(Padded(exe), features);
    SuccessMeansEveryFeatureFits(Padded(exe), features, i, j);
  }

  /** The correction leaves an address that is a non-zero multiple of the
      image length at the length itself, so a non-empty patch there reaches
      past the end and the install aborts. */
  lemma InjectionAtEndOfImageFails(image: seq<Byte>, inj: Injection)
    requires |image| > 0 && inj.offset > 0 && inj.offset % |image| == 0
    requires HexDecode(inj.payload).Success? && |HexDecode(inj.payload).value| > 0
    ensures InjectStep(image, inj) == Failure(OutOfBounds)
  {
    var addr := Reduce(inj.offset, |image|);
    if addr < |image| {
      ModUnique(addr, |image|, 0, addr);
    }
  }

  // ----- the transform, in place -----

  /** The body of `install_into`'s loop over one enabled feature's
      injections: each is decoded, its address corrected, and the buffer
      overwritten there. `None` means every injection was written. */
  method ApplyInjectionsInPlace(buffer: array<Byte>, injections: seq<Injection>) returns (failure: Option<Error>)
    requires buffer.Length > 0
    modifies buffer
    ensures failure.None? ==> ApplyInjections(old(buffer[..]), injections) == Success(buffer[..])
    ensures failure.Some? ==> ApplyInjections(old(buffer[..]), injections) == Failure(failure.value)
  {
    var j := 0;
    while j < |injections|
      invariant 0 <= j <= |injections|
      invariant ApplyInjections(old(buffer[..]), injections) == ApplyInjections(buffer[..], injections[j..])
    {
      var injection := injections[j];
      assert injections[j..][1..] == injections[j + 1..];
      var patch := DecodeHex(injection.payload);
      if patch.Failure? {
        return Some(patch.error);
      }
      var addr: nat;
      ghost var corrections: nat;
      addr, corrections := ReduceAddress(injection.offset, buffer.Length);
      if addr + |patch.value| > buffer.Length {
        return Some(OutOfBounds);
      }
      ApplyPatch(buffer, addr, patch.value);
      j := j + 1;
    }
    return None;
  }

  /** `install_into`: copies the source image into a fresh buffer of
      `ImageSize` bytes and patches that buffer in place. */
  method InstallInto(exe: seq<Byte>, catalog: seq<Feature>, options: InstallOptions)
    returns (r: Result<seq<Byte>, Error>)
    ensures r == Install(exe, catalog, options)
  {
    var configured := ConfigureFeatures(catalog, options);
    if configured.Failure? {
      return Failure(configured.error);
    }
    var features := configured.value;
    if |exe| > ImageSize {
      return Failure(Oversized);
    }
    var buffer := new Byte[ImageSize](k => if 0 <= k < |exe| then exe[k] else 0);
    assert buffer[..] == Padded(exe);

    var i := 0;
    while i < |features|
      invariant 0 <= i <= |features|
      invariant ApplyFeatures(Padded(exe), features) == ApplyFeatures(buffer[..], features[i..])
    {
      var feature := features[i];
      assert features[i..][1..] == features[i + 1..];
      if feature.enabled {
        var failure := ApplyInjectionsInPlace(buffer, feature.patches);
        if failure.Some? {
          return Failure(failure.value);
        }
      }
      i := i + 1;
    }
    return Success(buffer[..]);
  }
}

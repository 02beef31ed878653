/** The feedback object: the audio volume, the correct and incorrect sound
    lists read from the data directory, and the rule that picks which sound
    plays without repeating the one played just before. Sounds are named by
    their position in their list (each file gets a player of its own, so
    the position identifies the player); playing one is described by a
    `Playback` value. */
module AudioFeedback {
  import opened Text
  import opened Options

  const MinVolume := 0
  const MaxVolume := 100
  const InitialVolume := 100
  const VolumeStep := 20

  const CorrectPrefix := "correct"
  const IncorrectPrefix := "incorrect"

  /** qBound(0, volume, 100): the in-range volume nearest the one asked for. */
  function Clamp(volume: int): (v: int)
    ensures MinVolume <= v <= MaxVolume
    ensures MinVolume <= volume <= MaxVolume ==> v == volume
    ensures forall w :: MinVolume <= w <= MaxVolume ==> Distance(v, volume) <= Distance(w, volume)
  {
    if volume < MinVolume then MinVolume else if volume > MaxVolume then MaxVolume else volume
  }

  function Distance(a: int, b: int): nat
  {
    if a < b then b - a else a - b
  }

  function Min(a: int, b: int): int { if a <= b then a else b }

  function Max(a: int, b: int): int { if a >= b then a else b }

  /** The volume after `n` presses of the volume-up key. */
  function Ups(volume: int, n: nat): int
  {
    if n == 0 then volume else Clamp(Ups(volume, n - 1) + VolumeStep)
  }

  /** The volume after `n` presses of the volume-down key. */
  function Downs(volume: int, n: nat): int
  {
    if n == 0 then volume else Clamp(Downs(volume, n - 1) - VolumeStep)
  }

  /** Each press raises the volume by 20 until it reaches 100. */
  lemma {:induction false} UpsClimb(volume: int, n: nat)
    requires MinVolume <= volume <= MaxVolume
    ensures Ups(volume, n) == Min(MaxVolume, volume + VolumeStep * n)
  {
    if n > 0 {
      UpsClimb(volume, n - 1);
    }
  }

  /** Each press lowers the volume by 20 until it reaches 0. */
  lemma {:induction false} DownsDescend(volume: int, n: nat)
    requires MinVolume <= volume <= MaxVolume
    ensures Downs(volume, n) == Max(MinVolume, volume - VolumeStep * n)
  {
    if n > 0 {
      DownsDescend(volume, n - 1);
    }
  }

  /** Five presses reach the top from any volume, and further presses stay there. */
  lemma UpsReachTop(volume: int, n: nat)
    requires MinVolume <= volume <= MaxVolume && n >= 5
    ensures Ups(volume, n) == MaxVolume
  {
    UpsClimb(volume, n);
  }

  /** Five presses reach silence from any volume, and further presses stay there. */
  lemma DownsReachBottom(volume: int, n: nat)
    requires MinVolume <= volume <= MaxVolume && n >= 5
    ensures Downs(volume, n) == MinVolume
  {
    DownsDescend(volume, n);
  }

  /** A sound played: its position in its list, the file its player plays
      and the volume given to it. */
  datatype Playback = Silent | Played(index: nat, path: string, volume: int)

  /** The random oracle eventually draws, modulo `count`, a sound other than
      the previous one. */
  ghost predicate EventuallyFresh(rand: seq<nat>, count: nat, previous: Option<nat>)
  {
    count >= 1 && exists j :: 0 <= j < |rand| && Some(rand[j] % count) != previous
  }

  /** The first draw, from position `from` on, that is not the previous sound. */
  function FirstFreshDraw(rand: seq<nat>, count: nat, previous: Option<nat>, from: nat): (j: nat)
    requires count >= 1 && from <= |rand|
    requires exists k :: from <= k < |rand| && Some(rand[k] % count) != previous
    ensures from <= j < |rand| && Some(rand[j] % count) != previous
    ensures forall k :: from <= k < j ==> Some(rand[k] % count) == previous
    decreases |rand| - from
  {
    if Some(rand[from] % count) != previous then from
    else FirstFreshDraw(rand, count, previous, from + 1)
  }

  /** playSound: nothing for an empty list; the only sound, keeping the
      previous one, for a list of one; otherwise random draws until one
      differs from the previous sound, which it then becomes. `rand` is the
      sequence of qrand results. */
  method PlaySound(sounds: seq<string>, previousSound: Option<nat>, rand: seq<nat>, volume: int)
    returns (playback: Playback, newPrevious: Option<nat>)
    requires |sounds| >= 2 ==> EventuallyFresh(rand, |sounds|, previousSound)
    ensures |sounds| == 0 ==> playback == Silent && newPrevious == previousSound
    ensures |sounds| == 1 ==> playback == Played(0, sounds[0], volume) && newPrevious == previousSound
    ensures |sounds| >= 2 ==>
      var j := FirstFreshDraw(rand, |sounds|, previousSound, 0);
      && playback == Played(rand[j] % |sounds|, sounds[rand[j] % |sounds|], volume)
      && Some(playback.index) != previousSound
      && newPrevious == Some(playback.index)
  {
    newPrevious := previousSound;
    if |sounds| == 0 {
      return Silent, newPrevious;
    }
    var currentSound: nat;
    if |sounds| == 1 {
      currentSound := 0;
    } else {
      var draw := 0;
      currentSound := rand[draw] % |sounds|;
      while Some(currentSound) == previousSound
        invariant 0 <= draw < |rand| && currentSound == rand[draw] % |sounds|
        invariant forall k :: 0 <= k < draw ==> Some(rand[k] % |sounds|) == previousSound
        invariant draw <= FirstFreshDraw(rand, |sounds|, previousSound, 0)
        decreases |rand| - draw
      {
        draw := draw + 1;
        currentSound := rand[draw] % |sounds|;
      }
      newPrevious := Some(currentSound);
    }
    playback := Played(currentSound, sounds[currentSound], volume);
  }

  /** A directory entry: its file name and its absolute path. */
  datatype FileInfo = FileInfo(fileName: string, absoluteFilePath: string)

  predicate IsCorrectSound(f: FileInfo)
  {
    StartsWith(f.fileName, CorrectPrefix)
  }

  predicate IsIncorrectSound(f: FileInfo)
  {
    !IsCorrectSound(f) && StartsWith(f.fileName, IncorrectPrefix)
  }

  /** The paths of the correct sounds among the files, in directory order. */
  function CorrectPaths(files: seq<FileInfo>): seq<string>
  {
    if files == [] then []
    else
      var f := files[|files| - 1];
      CorrectPaths(files[..|files| - 1]) + (if IsCorrectSound(f) then [f.absoluteFilePath] else [])
  }

  /** The paths of the incorrect sounds among the files, in directory order. */
  function IncorrectPaths(files: seq<FileInfo>): seq<string>
  {
    if files == [] then []
    else
      var f := files[|files| - 1];
      IncorrectPaths(files[..|files| - 1]) + (if IsIncorrectSound(f) then [f.absoluteFilePath] else [])
  }

  /** No file name is both: a name starting with `incorrect` cannot start
      with `correct`, so the `else` in init loses nothing. */
  lemma PrefixesExclusive(f: FileInfo)
    ensures StartsWith(f.fileName, CorrectPrefix) ==> !StartsWith(f.fileName, IncorrectPrefix)
  {
    if StartsWith(f.fileName, CorrectPrefix) {
      assert f.fileName[0] == CorrectPrefix[0] == 'c';
    }
  }

  /** Classification keeps directory order: the files in two runs give the
      sounds of the first run followed by those of the second. */
  lemma {:induction false} PathsAppend(a: seq<FileInfo>, b: seq<FileInfo>)
    ensures CorrectPaths(a + b) == CorrectPaths(a) + CorrectPaths(b)
    ensures IncorrectPaths(a + b) == IncorrectPaths(a) + IncorrectPaths(b)
    decreases |b|
  {
    if b == [] {
      assert a + b == a;
    } else {
      var b' := b[..|b| - 1];
      assert (a + b)[..|a + b| - 1] == a + b';
      assert (a + b)[|a + b| - 1] == b[|b| - 1];
      PathsAppend(a, b');
    }
  }

  /** A path is listed as a correct sound exactly when some file with a
      `correct` name has it; likewise for incorrect sounds. */
  lemma {:induction false} PathsMembers(files: seq<FileInfo>, p: string)
    ensures p in CorrectPaths(files) <==>
              exists i :: 0 <= i < |files| && IsCorrectSound(files[i]) && files[i].absoluteFilePath == p
    ensures p in IncorrectPaths(files) <==>
              exists i :: 0 <= i < |files| && IsIncorrectSound(files[i]) && files[i].absoluteFilePath == p
    decreases |files|
  {
    if files != [] {
      var init := files[..|files| - 1];
      PathsMembers(init, p);
      assert forall i :: 0 <= i < |init| ==> init[i] == files[i];
    }
  }

  /** Every file is counted at most once, and a file with any other name not at all. */
  lemma {:induction false} PathsCount(files: seq<FileInfo>)
    ensures |CorrectPaths(files)| + |IncorrectPaths(files)| <= |files|
    ensures (forall i :: 0 <= i < |files| ==> !IsCorrectSound(files[i]) && !IsIncorrectSound(files[i]))
              ==> CorrectPaths(files) == [] && IncorrectPaths(files) == []
    decreases |files|
  {
    if files != [] {
      var init := files[..|files| - 1];
      PathsCount(init);
      assert forall i :: 0 <= i < |init| ==> init[i] == files[i];
    }
  }

  /** The positions of the files with a `correct` name. */
  ghost function CorrectIndices(files: seq<FileInfo>): set<int>
  {
    set i | 0 <= i < |files| && IsCorrectSound(files[i])
  }

  /** The positions of the files with an `incorrect` name. */
  ghost function IncorrectIndices(files: seq<FileInfo>): set<int>
  {
    set i | 0 <= i < |files| && IsIncorrectSound(files[i])
  }

  /** Each file of a class contributes exactly one path to its list: the
      lists are as long as the number of files of that class. */
  lemma PathsCountExact(files: seq<FileInfo>)
    ensures |CorrectPaths(files)| == |CorrectIndices(files)|
    ensures |IncorrectPaths(files)| == |IncorrectIndices(files)|
  {
    CorrectCountExact(files);
    IncorrectCountExact(files);
  }

  lemma {:induction false} CorrectCountExact(files: seq<FileInfo>)
    ensures |CorrectPaths(files)| == |CorrectIndices(files)|
    decreases |files|
  {
    if files != [] {
      var n := |files| - 1;
      CorrectCountExact(files[..n]);
      CorrectIndicesSnoc(files);
    }
  }

  lemma {:induction false} IncorrectCountExact(files: seq<FileInfo>)
    ensures |IncorrectPaths(files)| == |IncorrectIndices(files)|
    decreases |files|
  {
    if files != [] {
      var n := |files| - 1;
      IncorrectCountExact(files[..n]);
      IncorrectIndicesSnoc(files);
    }
  }

  lemma CorrectIndicesSnoc(files: seq<FileInfo>)
    requires files != []
    ensures var n := |files| - 1;
      && n !in CorrectIndices(files[..n])
      && CorrectIndices(files) ==
           CorrectIndices(files[..n]) + (if IsCorrectSound(files[n]) then {n} else {})
  {
    var n := |files| - 1;
    var init := files[..n];
    forall i | 0 <= i < n
      ensures init[i] == files[i]
    {
    }
  }

  lemma IncorrectIndicesSnoc(files: seq<FileInfo>)
    requires files != []
    ensures var n := |files| - 1;
      && n !in IncorrectIndices(files[..n])
      && IncorrectIndices(files) ==
           IncorrectIndices(files[..n]) + (if IsIncorrectSound(files[n]) then {n} else {})
  {
    var n := |files| - 1;
    var init := files[..n];
    forall i | 0 <= i < n
      ensures init[i] == files[i]
    {
    }
  }

  class Feedback {
    var audioVolume: int
    /** The players, by the file each plays, in the order they were loaded. */
    var correctSounds: seq<string>
    var incorrectSounds: seq<string>
    var previousCorrectSound: Option<nat>
    var previousIncorrectSound: Option<nat>

    ghost predicate Valid()
      reads this
    {
      && MinVolume <= audioVolume <= MaxVolume
      && (previousCorrectSound.Some? ==> previousCorrectSound.value < |correctSounds|)
      && (previousIncorrectSound.Some? ==> previousIncorrectSound.value < |incorrectSounds|)
    }

    /** Full volume, no sounds loaded yet and none played. */
    constructor ()
      ensures Valid()
      ensures audioVolume == InitialVolume
      ensures correctSounds == [] && incorrectSounds == []
      ensures previousCorrectSound == None && previousIncorrectSound == None
    {
      audioVolume := InitialVolume;
      correctSounds := [];
      incorrectSounds := [];
      previousCorrectSound := None;
      previousIncorrectSound := None;
    }

    function AudioVolume(): (v: int)
      reads this
      requires Valid()
      ensures MinVolume <= v <= MaxVolume
    {
      audioVolume
    }

    /** setAudioVolume: the volume becomes the clamped value, and
        volumeChanged is emitted, with that value, exactly when asked for. */
    method SetAudioVolume(volume: int, emitChangedSignal: bool) returns (volumeChanged: Option<int>)
      requires Valid()
      modifies this
      ensures Valid()
      ensures audioVolume == Clamp(volume)
      ensures volumeChanged.Some? <==> emitChangedSignal
      ensures volumeChanged.Some? ==> volumeChanged.value == audioVolume
      ensures correctSounds == old(correctSounds) && incorrectSounds == old(incorrectSounds)
      ensures previousCorrectSound == old(previousCorrectSound)
      ensures previousIncorrectSound == old(previousIncorrectSound)
    {
      audioVolume := Clamp(volume);
      volumeChanged := None;
      if emitChangedSignal {
        volumeChanged := Some(audioVolume);
      }
    }

    /** init: a player for each file whose name starts with `correct` or
        `incorrect`, appended to its list in directory order, and the volume
        key listener. */
    method Init(files: seq<FileInfo>) returns (listener: VolumeKeyListener)
      requires Valid()
      modifies this
      ensures Valid()
      ensures fresh(listener) && listener.feedback == this
      ensures correctSounds == old(correctSounds) + CorrectPaths(files)
      ensures incorrectSounds == old(incorrectSounds) + IncorrectPaths(files)
      ensures audioVolume == old(audioVolume)
      ensures previousCorrectSound == old(previousCorrectSound)
      ensures previousIncorrectSound == old(previousIncorrectSound)
    {
      listener := new VolumeKeyListener(this);
      var i := 0;
      while i < |files|
        invariant 0 <= i <= |files|
        invariant Valid()
        invariant correctSounds == old(correctSounds) + CorrectPaths(files[..i])
        invariant incorrectSounds == old(incorrectSounds) + IncorrectPaths(files[..i])
        invariant audioVolume == old(audioVolume)
        invariant previousCorrectSound == old(previousCorrectSound)
        invariant previousIncorrectSound == old(previousIncorrectSound)
      {
        var midiFile := files[i];
        assert files[..i + 1][..i] == files[..i];
        if StartsWith(midiFile.fileName, CorrectPrefix) {
          correctSounds := correctSounds + [midiFile.absoluteFilePath];
        } else if StartsWith(midiFile.fileName, IncorrectPrefix) {
          incorrectSounds := incorrectSounds + [midiFile.absoluteFilePath];
        }
        i := i + 1;
      }
      assert files[..|files|] == files;
    }

    /** playCorrectSound: playSound over the correct sounds at the current volume. */
    method PlayCorrectSound(rand: seq<nat>) returns (playback: Playback)
      requires Valid()
      requires |correctSounds| >= 2 ==> EventuallyFresh(rand, |correctSounds|, previousCorrectSound)
      modifies this
      ensures Valid()
      ensures |correctSounds| == 0 ==> playback == Silent
      ensures |correctSounds| == 1 ==> playback == Played(0, correctSounds[0], audioVolume)
      ensures |correctSounds| <= 1 ==> previousCorrectSound == old(previousCorrectSound)
      ensures |correctSounds| >= 2 ==>
        && playback.Played? && playback.index < |correctSounds|
        && Some(playback.index) != old(previousCorrectSound)
        && previousCorrectSound == Some(playback.index)
        && playback == Played(playback.index, correctSounds[playback.index], audioVolume)
      ensures audioVolume == old(audioVolume)
      ensures correctSounds == old(correctSounds) && incorrectSounds == old(incorrectSounds)
      ensures previousIncorrectSound == old(previousIncorrectSound)
      ensures |correctSounds| >= 2 ==>
        playback.index == rand[FirstFreshDraw(rand, |correctSounds|, old(previousCorrectSound), 0)] % |correctSounds|
    {
      playback, previousCorrectSound :=
        PlaySound(correctSounds, previousCorrectSound, rand, audioVolume);
    }

    /** playIncorrectSound: playSound over the incorrect sounds at the current volume. */
    method PlayIncorrectSound(rand: seq<nat>) returns (playback: Playback)
      requires Valid()
      requires |incorrectSounds| >= 2 ==> EventuallyFresh(rand, |incorrectSounds|, previousIncorrectSound)
      modifies this
      ensures Valid()
      ensures |incorrectSounds| == 0 ==> playback == Silent
      ensures |incorrectSounds| == 1 ==> playback == Played(0, incorrectSounds[0], audioVolume)
      ensures |incorrectSounds| <= 1 ==> previousIncorrectSound == old(previousIncorrectSound)
      ensures |incorrectSounds| >= 2 ==>
        && playback.Played? && playback.index < |incorrectSounds|
        && Some(playback.index) != old(previousIncorrectSound)
        && previousIncorrectSound == Some(playback.index)
        && playback == Played(playback.index, incorrectSounds[playback.index], audioVolume)
      ensures audioVolume == old(audioVolume)
      ensures correctSounds == old(correctSounds) && incorrectSounds == old(incorrectSounds)
      ensures previousCorrectSound == old(previousCorrectSound)
      ensures |incorrectSounds| >= 2 ==>
        playback.index == rand[FirstFreshDraw(rand, |incorrectSounds|, old(previousIncorrectSound), 0)] % |incorrectSounds|
    {
      playback, previousIncorrectSound :=
        PlaySound(incorrectSounds, previousIncorrectSound, rand, audioVolume);
    }
  }

  /** setAudioVolume's second argument when the volume keys call it: its
      default, declared with setAudioVolume outside this model. */
  const DefaultEmitChangedSignal := true

  /** The volume keys of one feedback object. */
  class VolumeKeyListener {
    const feedback: Feedback

    constructor (feedback: Feedback)
      ensures this.feedback == feedback
    {
      this.feedback := feedback;
    }

    /** volumeUp: one press more, 20 louder, clamped. */
    method VolumeUp() returns (volumeChanged: Option<int>)
      requires feedback.Valid()
      modifies feedback
      ensures feedback.Valid()
      ensures feedback.audioVolume == Ups(old(feedback.audioVolume), 1)
      ensures volumeChanged == Some(feedback.audioVolume)
      ensures feedback.correctSounds == old(feedback.correctSounds)
      ensures feedback.incorrectSounds == old(feedback.incorrectSounds)
      ensures feedback.previousCorrectSound == old(feedback.previousCorrectSound)
      ensures feedback.previousIncorrectSound == old(feedback.previousIncorrectSound)
    {
      var volume := feedback.AudioVolume();
      volumeChanged := feedback.SetAudioVolume(volume + VolumeStep, DefaultEmitChangedSignal);
    }

    /** volumeDown: one press more, 20 quieter, clamped. */
    method VolumeDown() returns (volumeChanged: Option<int>)
      requires feedback.Valid()
      modifies feedback
      ensures feedback.Valid()
      ensures feedback.audioVolume == Downs(old(feedback.audioVolume), 1)
      ensures volumeChanged == Some(feedback.audioVolume)
      ensures feedback.correctSounds == old(feedback.correctSounds)
      ensures feedback.incorrectSounds == old(feedback.incorrectSounds)
      ensures feedback.previousCorrectSound == old(feedback.previousCorrectSound)
      ensures feedback.previousIncorrectSound == old(feedback.previousIncorrectSound)
    {
      var volume := feedback.AudioVolume();
      volumeChanged := feedback.SetAudioVolume(volume - VolumeStep, DefaultEmitChangedSignal);
    }
  }
}

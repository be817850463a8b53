/** The download side of a file: automatic loading, and the timer that holds further requests off after each one
    (src/tdlib/tdlibfile.cpp:146-176, 193-245). */
module FileDownloads {

  /** The part of a file description that decides about downloading; anything that is not of type "file" is Invalid,
      and `local` is None if the description holds no local file. */
  datatype FileInfo = Invalid | FileInfo(id: int, local: Local)
  datatype Local = None | Local(canBeDownloaded: bool, active: bool, completed: bool)

  /** A download request, or one of the three things that allow the next one. */
  datatype Step = Requested(id: int) | TimerExpired | LoadedByHand | SeenCompleted

  /** No request follows another one directly. */
  ghost predicate Spaced(steps: seq<Step>) {
    forall k :: 0 < k < |steps| && steps[k].Requested? ==> !steps[k - 1].Requested?
  }

  class FileDownload {
    var id: int
    var attached: bool
    var autoLoad: bool
    var clearWithInvalidFileInfo: bool
    var holdOff: bool
    var canBeDownloaded: bool
    var active: bool
    var completed: bool
    /** The history of the file. */
    var steps: seq<Step>

    predicate Downloadable()
      reads this
    {
      id != 0 && attached && canBeDownloaded && !active && !completed
    }

    /** A file that is to be loaded automatically is never left idle: either it cannot be downloaded now, or the timer
        runs that will try again. And an unanswered request has the timer running, so requests never pile up. */
    ghost predicate Valid()
      reads this
    {
      && (autoLoad && Downloadable() ==> holdOff)
      && (steps != [] && steps[|steps| - 1].Requested? ==> holdOff)
      && Spaced(steps)
    }

    constructor (attached: bool, info: FileInfo)
      ensures Valid() && !autoLoad && !holdOff && steps == [] && this.attached == attached
      ensures id == if info.FileInfo? then info.id else 0
      ensures if info.FileInfo? && info.local.Local? then
                && canBeDownloaded == info.local.canBeDownloaded && active == info.local.active
                && completed == info.local.completed
              else !canBeDownloaded && !active && !completed
    {
      id, this.attached, autoLoad, clearWithInvalidFileInfo, holdOff := 0, attached, false, false, false;
      canBeDownloaded, active, completed := false, false, false;
      steps := [];
      new;
      UpdateFileInfo(info);
    }

    method DownloadFile() returns (requested: bool)
      requires Spaced(steps) && (steps != [] && steps[|steps| - 1].Requested? ==> holdOff)
      modifies `holdOff, `steps
      ensures Valid()
      ensures requested == (Downloadable() && !old(holdOff))
      ensures requested <==> id != 0 && attached && canBeDownloaded && !active && !completed && !old(holdOff)
      ensures holdOff == (old(holdOff) || requested)
      ensures steps == old(steps) + if requested then [Requested(id)] else []
    {
      requested := false;
      if id != 0 && attached && !holdOff && !active && !completed && canBeDownloaded {
        holdOff := true;
        steps := steps + [Requested(id)];
        requested := true;
      }
    }

    method Load() returns (requested: bool)
      requires Valid()
      modifies `holdOff, `steps
      ensures Valid()
      ensures requested == Downloadable() == holdOff
      ensures steps == old(steps) + [LoadedByHand] + if requested then [Requested(id)] else []
    {
      holdOff := false;
      steps := steps + [LoadedByHand];
      requested := DownloadFile();
    }

    method SetAutoLoad(enable: bool)
      requires Valid()
      modifies `autoLoad, `holdOff, `steps
      ensures Valid() && autoLoad == enable
      ensures var asks := enable && !old(autoLoad) && Downloadable() && !old(holdOff);
              steps == old(steps) + if asks then [Requested(id)] else []
    {
      if autoLoad != enable {
        autoLoad := enable;
        if autoLoad {
          var _ := DownloadFile();
        }
      }
    }

    /** A different wrapper, or none. */
    method UpdateTDLibWrapper(attach: bool)
      requires Valid()
      modifies `attached, `holdOff, `steps
      ensures Valid() && attached == attach
      ensures steps == old(steps) + if autoLoad && Downloadable() && !old(holdOff) then [Requested(id)] else []
    {
      attached := attach;
      if attached && autoLoad {
        var _ := DownloadFile();
      }
    }

    method UpdateFileInfo(info: FileInfo)
      modifies `id, `canBeDownloaded, `active, `completed
      ensures info.FileInfo? ==> id == info.id
      ensures info.FileInfo? && info.local.Local? ==>
                && canBeDownloaded == info.local.canBeDownloaded && active == info.local.active
                && completed == info.local.completed
      ensures info.Invalid? && clearWithInvalidFileInfo ==> id == 0 && !canBeDownloaded && !active && !completed
      ensures info.Invalid? && !clearWithInvalidFileInfo ==> id == old(id)
      ensures (if info.Invalid? then !clearWithInvalidFileInfo else info.local.None?) ==>
                canBeDownloaded == old(canBeDownloaded) && active == old(active) && completed == old(completed)
    {
      if info.FileInfo? {
        id := info.id;
        if info.local.Local? {
          canBeDownloaded, active, completed := info.local.canBeDownloaded, info.local.active, info.local.completed;
        }
      } else if clearWithInvalidFileInfo {
        id := 0;
        canBeDownloaded, active, completed := false, false, false;
      }
    }

    method SetFileInfo(info: FileInfo)
      requires Valid()
      modifies `id, `canBeDownloaded, `active, `completed, `holdOff, `steps
      ensures Valid()
      ensures steps == old(steps) + (if completed && old(holdOff) then [SeenCompleted] else [])
                       + if autoLoad && Downloadable() && !old(holdOff) then [Requested(id)] else []
      ensures holdOff == ((old(holdOff) && !completed) || (autoLoad && Downloadable()))
      ensures info.FileInfo? ==> id == info.id
      ensures info.FileInfo? && info.local.Local? ==>
                && canBeDownloaded == info.local.canBeDownloaded && active == info.local.active
                && completed == info.local.completed
      ensures info.Invalid? && clearWithInvalidFileInfo ==> id == 0 && !canBeDownloaded && !active && !completed
      ensures info.Invalid? && !clearWithInvalidFileInfo ==> id == old(id)
      ensures (if info.Invalid? then !clearWithInvalidFileInfo else info.local.None?) ==>
                canBeDownloaded == old(canBeDownloaded) && active == old(active) && completed == old(completed)
    {
      UpdateFileInfo(info);
      if completed && holdOff {
        holdOff := false;
        steps := steps + [SeenCompleted];
      }
      if autoLoad {
        var _ := DownloadFile();
      }
    }

    method TimerEvent()
      requires Valid()
      modifies `holdOff, `steps
      ensures Valid()
      ensures holdOff == (autoLoad && Downloadable())
      ensures steps == old(steps) + [TimerExpired] + if holdOff then [Requested(id)] else []
    {
      holdOff := false;
      steps := steps + [TimerExpired];
      if autoLoad {
        var _ := DownloadFile();
      }
    }
  }
}

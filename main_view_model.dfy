/** The main screen's view model: one `MainViewState`, replaced wholesale on
    each scan and on each dialog event and published to observers, the
    one-shot effects it emits and the navigation it requests. */
module ViewModel {
  import opened Kotlin

  /** `MainViewState`: whether the camera is enabled (unset until the first
      scan or dialog dismissal) and whether the "open link" button shows. */
  datatype MainViewState = MainViewState(isCameraEnabled: Nullable<bool>, isOpenLinkButtonVisible: bool)

  /** `MainViewState()`: the data class's default values. */
  const InitialState := MainViewState(Null, false)

  datatype ViewEvent = BarcodeScanningButtonClicked | QrCodeScanningButtonClicked | BottomDialogCancelButtonClicked

  datatype ViewEffect = ShowBottomSheetFragment(dataScanned: string)

  /** The scanning types of the navigation interface. */
  datatype ScanningType = Barcode | QrCode

  /** A call the view model makes on its navigation. */
  datatype NavigationCall = ToCameraScanning(scanningType: ScanningType) | GoBack

  /** The platform's two URL checks, `Patterns.WEB_URL` matching and
      `URLUtil.isValidUrl`, which the model takes as given. */
  datatype UrlChecks = UrlChecks(matchesWebUrl: string -> bool, isValidUrl: string -> bool)

  /** A scanned string counts as a link when it passes both checks. */
  function IsUrlValid(checks: UrlChecks, url: string): bool
  {
    checks.matchesWebUrl(url) && checks.isValidUrl(url)
  }

  // ----- What the view model does, as functions of what happened to it -----

  /** What can happen to the view model: a scan, a view event, or the cancel
      button. */
  datatype Input = DataScanned(data: string) | Process(event: ViewEvent) | CancelButtonClicked

  /** The view state after one input: a scan disables the camera and shows
      the link button exactly for a valid URL; dismissing the bottom dialog
      enables the camera; nothing else changes the state. */
  function Next(s: MainViewState, input: Input, checks: UrlChecks): MainViewState
  {
    match input
    case DataScanned(d) => s.(isCameraEnabled := NonNull(false), isOpenLinkButtonVisible := IsUrlValid(checks, d))
    case Process(BottomDialogCancelButtonClicked) => s.(isCameraEnabled := NonNull(true))
    case _ => s
  }

  /** The effects one input emits: a scan shows the bottom sheet with the
      scanned string. */
  function EffectsOf(input: Input): seq<ViewEffect>
  {
    if input.DataScanned? then [ShowBottomSheetFragment(input.data)] else []
  }

  /** The navigation one input requests. */
  function NavigationOf(input: Input): seq<NavigationCall>
  {
    match input
    case Process(BarcodeScanningButtonClicked) => [ToCameraScanning(Barcode)]
    case Process(QrCodeScanningButtonClicked) => [ToCameraScanning(QrCode)]
    case CancelButtonClicked => [GoBack]
    case _ => []
  }

  /** The view state after `inputs`, from the initial state. */
  function StateAfter(inputs: seq<Input>, checks: UrlChecks): MainViewState
    decreases |inputs|
  {
    if inputs == [] then InitialState
    else Next(StateAfter(inputs[..|inputs| - 1], checks), inputs[|inputs| - 1], checks)
  }

  /** The effects emitted during `inputs`, in order. */
  function Effects(inputs: seq<Input>): seq<ViewEffect>
    decreases |inputs|
  {
    if inputs == [] then [] else Effects(inputs[..|inputs| - 1]) + EffectsOf(inputs[|inputs| - 1])
  }

  /** The navigation requested during `inputs`, in order. */
  function Navigation(inputs: seq<Input>): seq<NavigationCall>
    decreases |inputs|
  {
    if inputs == [] then [] else Navigation(inputs[..|inputs| - 1]) + NavigationOf(inputs[|inputs| - 1])
  }

  /** Input k is the last scan of `inputs`. */
  ghost predicate LastScan(inputs: seq<Input>, k: int)
  {
    0 <= k < |inputs| && inputs[k].DataScanned? && forall j :: k < j < |inputs| ==> !inputs[j].DataScanned?
  }

  /** The link button shows exactly when there has been a scan and the last
      one passed both URL checks. */
  lemma {:induction false} LinkButtonFollowsLastScan(inputs: seq<Input>, checks: UrlChecks)
    ensures StateAfter(inputs, checks).isOpenLinkButtonVisible
        <==> exists k :: LastScan(inputs, k)
                         && checks.matchesWebUrl(inputs[k].data) && checks.isValidUrl(inputs[k].data)
    decreases |inputs|
  {
    if inputs != [] {
      var front, last := inputs[..|inputs| - 1], inputs[|inputs| - 1];
      LinkButtonFollowsLastScan(front, checks);
      if last.DataScanned? {
        assert LastScan(inputs, |inputs| - 1);
        forall k | LastScan(inputs, k) ensures k == |inputs| - 1 {
        }
      } else {
        forall k | LastScan(inputs, k) ensures LastScan(front, k) && front[k] == inputs[k] {
        }
        forall k | LastScan(front, k) ensures LastScan(inputs, k) {
        }
      }
    }
  }

  /** The camera switch an input makes, if any. */
  function CameraSwitch(input: Input): Nullable<bool>
  {
    match input
    case DataScanned(_) => NonNull(false)
    case Process(BottomDialogCancelButtonClicked) => NonNull(true)
    case _ => Null
  }

  /** The camera state is unset until some input switches it, and from then
      on it is what the last such input set. */
  lemma {:induction false} CameraFollowsLastSwitch(inputs: seq<Input>, checks: UrlChecks)
    ensures StateAfter(inputs, checks).isCameraEnabled == Null
        <==> forall k :: 0 <= k < |inputs| ==> CameraSwitch(inputs[k]) == Null
    ensures forall k :: 0 <= k < |inputs| && CameraSwitch(inputs[k]) != Null
                        && (forall j :: k < j < |inputs| ==> CameraSwitch(inputs[j]) == Null)
                        ==> StateAfter(inputs, checks).isCameraEnabled == CameraSwitch(inputs[k])
    decreases |inputs|
  {
    if inputs != [] {
      var front, last := inputs[..|inputs| - 1], inputs[|inputs| - 1];
      CameraFollowsLastSwitch(front, checks);
      if CameraSwitch(last) == Null {
        assert StateAfter(inputs, checks).isCameraEnabled == StateAfter(front, checks).isCameraEnabled;
        forall k | 0 <= k < |front| ensures front[k] == inputs[k] {
        }
      }
    }
  }

  /** Every effect shows a string that was scanned, and every scanned string
      is shown. */
  lemma {:induction false} EffectsShowScans(inputs: seq<Input>)
    ensures forall e :: e in Effects(inputs) ==> DataScanned(e.dataScanned) in inputs
    ensures forall d :: DataScanned(d) in inputs ==> ShowBottomSheetFragment(d) in Effects(inputs)
    decreases |inputs|
  {
    if inputs != [] {
      var front, last := inputs[..|inputs| - 1], inputs[|inputs| - 1];
      EffectsShowScans(front);
      assert inputs == front + [last];
    }
  }

  /** A navigation call that only one input makes, and that input makes
      alone, is requested exactly when that input has happened. */
  lemma {:induction false} NavigationOnlyFrom(inputs: seq<Input>, button: Input, call: NavigationCall)
    requires NavigationOf(button) == [call]
    requires forall input :: call in NavigationOf(input) ==> input == button
    ensures call in Navigation(inputs) <==> button in inputs
    decreases |inputs|
  {
    if inputs != [] {
      var front, last := inputs[..|inputs| - 1], inputs[|inputs| - 1];
      NavigationOnlyFrom(front, button, call);
      assert inputs == front + [last];
      assert call in NavigationOf(last) <==> last == button;
    }
  }

  /** Navigation to a scanner happens exactly for its button, and going back
      exactly for the cancel button. */
  lemma NavigationFollowsButtons(inputs: seq<Input>)
    ensures ToCameraScanning(Barcode) in Navigation(inputs) <==> Process(BarcodeScanningButtonClicked) in inputs
    ensures ToCameraScanning(QrCode) in Navigation(inputs) <==> Process(QrCodeScanningButtonClicked) in inputs
    ensures GoBack in Navigation(inputs) <==> CancelButtonClicked in inputs
  {
    NavigationOnlyFrom(inputs, Process(BarcodeScanningButtonClicked), ToCameraScanning(Barcode));
    NavigationOnlyFrom(inputs, Process(QrCodeScanningButtonClicked), ToCameraScanning(QrCode));
    NavigationOnlyFrom(inputs, CancelButtonClicked, GoBack);
  }

  /** The last input's contribution, for the methods below. */
  lemma AfterOneMore(inputs: seq<Input>, input: Input, checks: UrlChecks)
    ensures StateAfter(inputs + [input], checks) == Next(StateAfter(inputs, checks), input, checks)
    ensures Effects(inputs + [input]) == Effects(inputs) + EffectsOf(input)
    ensures Navigation(inputs + [input]) == Navigation(inputs) + NavigationOf(input)
  {
    assert (inputs + [input])[..|inputs|] == inputs;
  }

  // ----- The view model -----

  class MainViewModel {
    /** The URL checks the platform provides. */
    const checks: UrlChecks
    /** `_viewState`: null until `init` sets it. */
    var state: Nullable<MainViewState>
    /** The value of the `_viewStates` LiveData that observers see. */
    var published: Nullable<MainViewState>
    /** The values posted to `_viewEffects`, in order. */
    var effects: seq<ViewEffect>
    /** The calls made on `navigation`, in order. */
    var navigationCalls: seq<NavigationCall>
    /** Everything that has happened to the view model since `init`. */
    ghost var inputs: seq<Input>

    /** The view state is set, is the one published, and it, the effects and
        the navigation are what the inputs so far produce. */
    ghost predicate Valid()
      reads this
    {
      && state == NonNull(StateAfter(inputs, checks)) && published == state
      && effects == Effects(inputs) && navigationCalls == Navigation(inputs)
    }

    /** The `viewState` getter: throws while the backing field is null. */
    function ViewState(): (r: Result<MainViewState>)
      reads this
      ensures r.Ok? <==> state.NonNull?
      ensures r.Ok? ==> state == NonNull(r.value)
      ensures r.Err? ==> r.error == UninitializedPropertyAccess
    {
      if state.NonNull? then Ok(state.value) else Err(UninitializedPropertyAccess)
    }

    /** The `viewState` setter: stores the value and publishes the same value. */
    method SetViewState(value: MainViewState)
      modifies this
      ensures state == NonNull(value) && published == NonNull(value)
      ensures effects == old(effects) && navigationCalls == old(navigationCalls) && inputs == old(inputs)
    {
      state := NonNull(value);
      published := NonNull(value);
    }

    /** `init`: the view state starts as `MainViewState()`, so the getter
        never throws afterwards. */
    constructor(checks: UrlChecks)
      ensures Valid() && inputs == []
      ensures ViewState() == Ok(InitialState) && published == NonNull(InitialState)
      ensures effects == [] && navigationCalls == []
    {
      this.checks := checks;
      state := Null;
      published := Null;
      effects := [];
      navigationCalls := [];
      inputs := [];
      new;
      SetViewState(MainViewState(Null, false));
    }

    /** `onDataScanned`: disables the camera, shows the link button exactly
        when the string is a valid URL, and emits one effect carrying it. */
    method OnDataScanned(dataScanned: string)
      requires Valid()
      modifies this
      ensures Valid() && inputs == old(inputs) + [DataScanned(dataScanned)]
      ensures ViewState() == Ok(MainViewState(NonNull(false), IsUrlValid(checks, dataScanned)))
      ensures effects == old(effects) + [ShowBottomSheetFragment(dataScanned)]
      ensures navigationCalls == old(navigationCalls)
    {
      AfterOneMore(inputs, DataScanned(dataScanned), checks);
      var current := state.value;
      SetViewState(current.(isCameraEnabled := NonNull(false), isOpenLinkButtonVisible := IsUrlValid(checks, dataScanned)));
      effects := effects + [ShowBottomSheetFragment(dataScanned)];
      inputs := inputs + [DataScanned(dataScanned)];
    }

    /** `onCancelButtonClicked`: goes back and leaves the view state alone. */
    method OnCancelButtonClicked()
      requires Valid()
      modifies this
      ensures Valid() && inputs == old(inputs) + [CancelButtonClicked]
      ensures state == old(state) && published == old(published) && effects == old(effects)
      ensures navigationCalls == old(navigationCalls) + [GoBack]
    {
      AfterOneMore(inputs, CancelButtonClicked, checks);
      navigationCalls := navigationCalls + [GoBack];
      inputs := inputs + [CancelButtonClicked];
    }

    /** `process`: dismissing the bottom dialog enables the camera and keeps
        the link button; the scanner buttons navigate to their scanner and
        leave the view state alone. */
    method Process(viewEvent: ViewEvent)
      requires Valid()
      modifies this
      ensures Valid() && inputs == old(inputs) + [Input.Process(viewEvent)]
      ensures viewEvent == BottomDialogCancelButtonClicked ==>
        ViewState() == Ok(old(state).value.(isCameraEnabled := NonNull(true)))
        && navigationCalls == old(navigationCalls)
      ensures viewEvent != BottomDialogCancelButtonClicked ==>
        state == old(state) && published == old(published)
      ensures viewEvent == BarcodeScanningButtonClicked ==> navigationCalls == old(navigationCalls) + [ToCameraScanning(Barcode)]
      ensures viewEvent == QrCodeScanningButtonClicked ==> navigationCalls == old(navigationCalls) + [ToCameraScanning(QrCode)]
      ensures effects == old(effects)
    {
      AfterOneMore(inputs, Input.Process(viewEvent), checks);
      match viewEvent {
        case BottomDialogCancelButtonClicked =>
          var current := state.value;
          SetViewState(current.(isCameraEnabled := NonNull(true)));
        case BarcodeScanningButtonClicked =>
          navigationCalls := navigationCalls + [ToCameraScanning(Barcode)];
        case QrCodeScanningButtonClicked =>
          navigationCalls := navigationCalls + [ToCameraScanning(QrCode)];
      }
      inputs := inputs + [Input.Process(viewEvent)];
    }
  }
}

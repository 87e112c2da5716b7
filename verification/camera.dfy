/**
  The viewer's camera: a free-flying camera and an orbiting camera, of which
  exactly one is active. The `C` key (the `CamSwitch` input) swaps them.

  The two sub-cameras are opaque here: their state is a type parameter, and
  their `input` and `drive` behaviour are function parameters.
 */
module Cameras {
  import opened Inputs

  datatype Mode = Fly | Orbit

  /** `Mode::default()`. */
  const DefaultMode: Mode := Orbit

  /** The other mode. */
  function Toggle(mode: Mode): (r: Mode)
    ensures r != mode
  {
    match mode
    case Fly => Orbit
    case Orbit => Fly
  }

  lemma ToggleInvolutive(mode: Mode)
    ensures Toggle(Toggle(mode)) == mode
  {
  }

  /** The camera: the active mode and both sub-cameras' states. */
  datatype Camera<F, O> = Camera(mode: Mode, flycam: F, orbcam: O)

  /** `Camera::default()` around given sub-camera states. */
  function Default<F, O>(flycam: F, orbcam: O): Camera<F, O>
  {
    Camera(DefaultMode, flycam, orbcam)
  }

  /**
    `Camera::input`: switch mode first if `CamSwitch` was pressed this frame,
    then pass the input to the sub-camera of the (new) mode only.
   */
  function Input<F, O>(cam: Camera<F, O>, input: InputManager,
                       flyInput: (F, InputManager) -> F, orbInput: (O, InputManager) -> O): (r: Camera<F, O>)
    ensures IsJustPressed(input, CamSwitch) ==> r.mode != cam.mode
    ensures !IsJustPressed(input, CamSwitch) ==> r.mode == cam.mode
    ensures r.mode == Fly ==> r.flycam == flyInput(cam.flycam, input) && r.orbcam == cam.orbcam
    ensures r.mode == Orbit ==> r.orbcam == orbInput(cam.orbcam, input) && r.flycam == cam.flycam
  {
    var mode := if IsJustPressed(input, CamSwitch) then Toggle(cam.mode) else cam.mode;
    match mode
    case Fly => cam.(mode := mode, flycam := flyInput(cam.flycam, input))
    case Orbit => cam.(mode := mode, orbcam := orbInput(cam.orbcam, input))
  }

  /**
    `Camera::drive`: advance only the active sub-camera by `time` and return
    its view; the mode and the other sub-camera stay as they were.
   */
  function Drive<F, O, V>(cam: Camera<F, O>, time: real,
                          flyDrive: (F, real) -> (F, V), orbDrive: (O, real) -> (O, V)): (r: (Camera<F, O>, V))
    ensures r.0.mode == cam.mode
    ensures cam.mode == Fly ==> r.0.orbcam == cam.orbcam && (r.0.flycam, r.1) == flyDrive(cam.flycam, time)
    ensures cam.mode == Orbit ==> r.0.flycam == cam.flycam && (r.0.orbcam, r.1) == orbDrive(cam.orbcam, time)
  {
    match cam.mode
    case Fly =>
      var (flycam, view) := flyDrive(cam.flycam, time);
      (cam.(flycam := flycam), view)
    case Orbit =>
      var (orbcam, view) := orbDrive(cam.orbcam, time);
      (cam.(orbcam := orbcam), view)
  }

  /** Two switching frames bring the camera back to the mode it started in. */
  lemma SwitchTwiceRestores<F, O>(cam: Camera<F, O>, first: InputManager, second: InputManager,
                                  flyInput: (F, InputManager) -> F, orbInput: (O, InputManager) -> O)
    requires IsJustPressed(first, CamSwitch) && IsJustPressed(second, CamSwitch)
    ensures Input(Input(cam, first, flyInput, orbInput), second, flyInput, orbInput).mode == cam.mode
  {
    var once := Input(cam, first, flyInput, orbInput);
    assert once.mode == Toggle(cam.mode);
  }

  /**
    One frame of the render loop: the camera reads the input state, then the
    per-frame parts of the input state are cleared.
   */
  function Frame<F, O>(cam: Camera<F, O>, input: InputManager,
                       flyInput: (F, InputManager) -> F, orbInput: (O, InputManager) -> O): (r: (Camera<F, O>, InputManager))
  {
    (Input(cam, input, flyInput, orbInput), ResetFrame(input))
  }

  /**
    A press of `C` switches the mode in the frame it arrives. A next frame
    that carries no new key event leaves the mode alone, even though the key
    is still held.
   */
  lemma HoldingSwitchTogglesOnce<F, O>(cam: Camera<F, O>, input: InputManager, press: KeyboardInput,
                                       flyInput: (F, InputManager) -> F, orbInput: (O, InputManager) -> O)
    requires press.state == Pressed && press.virtualKeycode == Some(C)
    ensures var (cam1, input1) := Frame(cam, KeyEvent(input, press), flyInput, orbInput);
            var (cam2, input2) := Frame(cam1, input1, flyInput, orbInput);
            && cam1.mode == Toggle(cam.mode)
            && cam2.mode == cam1.mode
            && IsPressed(input2, CamSwitch)
  {
    var pressed := KeyEvent(input, press);
    assert Touches(press, CamSwitch);
    assert IsJustPressed(pressed, CamSwitch);
    var (cam1, input1) := Frame(cam, pressed, flyInput, orbInput);
    assert !IsJustPressed(input1, CamSwitch);
  }

  /**
    From a default camera, the first `C` press selects the flying camera,
    and that same frame's input already reaches it.
   */
  lemma FirstSwitchSelectsFly<F, O>(flycam: F, orbcam: O, input: InputManager,
                                    flyInput: (F, InputManager) -> F, orbInput: (O, InputManager) -> O)
    requires IsJustPressed(input, CamSwitch)
    ensures var r := Input(Default(flycam, orbcam), input, flyInput, orbInput);
            r.mode == Fly && r.flycam == flyInput(flycam, input) && r.orbcam == orbcam
  {
    var r := Input(Default(flycam, orbcam), input, flyInput, orbInput);
    assert r.mode != Orbit;
  }

  /**
    The window system's auto-repeat of a held `C` arrives as a further
    press event. The frame reset has cleared the just-pressed set, so the
    repeat toggles the mode again and the camera is back where it started.
   */
  lemma KeyRepeatTogglesAgain<F, O>(cam: Camera<F, O>, input: InputManager, press: KeyboardInput,
                                    flyInput: (F, InputManager) -> F, orbInput: (O, InputManager) -> O)
    requires press.state == Pressed && press.virtualKeycode == Some(C)
    ensures var (cam1, input1) := Frame(cam, KeyEvent(input, press), flyInput, orbInput);
            var (cam2, input2) := Frame(cam1, KeyEvent(input1, press), flyInput, orbInput);
            && cam1.mode == Toggle(cam.mode)
            && cam2.mode == cam.mode
  {
    assert Touches(press, CamSwitch);
    var (cam1, input1) := Frame(cam, KeyEvent(input, press), flyInput, orbInput);
    assert IsJustPressed(KeyEvent(input1, press), CamSwitch);
  }
}

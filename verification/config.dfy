/** The controller's fixed configuration: thresholds, timing and the actuator address. */
module Config {

  /** Contours whose area is not strictly above this are treated as noise (pixels of the 320x240 working frame). */
  const MinContourArea: real := 1000.0

  /** Base address of the ESP8266 servo controller; commands are path segments below it. */
  const Esp8266Url: string := "http://192.168.137.134"

  /** Minimum time, in seconds, that must separate a call from the last successful command. */
  const CommandInterval: real := 1.5

  /** The value the "time of the last command" starts from before any command succeeded. */
  const InitialCommandTime: real := 0.0

  /** The only HTTP status the controller treats as a delivered command. */
  const SuccessStatus: int := 200
}

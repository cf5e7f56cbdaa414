/**
 * What the games take from SDL, reduced to what their handlers distinguish: the polled
 * events (polling itself is left to the caller, so a frame's events arrive as a
 * sequence and held keys as booleans), and the integer rectangle `SDL_Rect` with the
 * library's overlap test.
 */
module Sdl {

  datatype Key = Escape | Up | Down | Left | Right | OtherKey

  datatype Event = Quit | KeyDown(key: Key) | OtherEvent

  datatype Rect = Rect(x: int, y: int, w: int, h: int)

  function Max(a: int, b: int): int { if a < b then b else a }
  function Min(a: int, b: int): int { if a < b then a else b }

  /**
   * `SDL_HasIntersection`: false when either rectangle is empty, otherwise whether the
   * overlap is non-empty on both axes.
   */
  predicate Intersects(a: Rect, b: Rect)
  {
    a.w > 0 && a.h > 0 && b.w > 0 && b.h > 0 &&
    Max(a.x, b.x) < Min(a.x + a.w, b.x + b.w) &&
    Max(a.y, b.y) < Min(a.y + a.h, b.y + b.h)
  }
}
